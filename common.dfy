/** Failure-carrying wrappers and the HTTP error shape shared by the handlers. */
module Common {

  datatype Option<+T> = None | Some(value: T)

  datatype Result<+R, +E> = Success(value: R) | Failure(error: E)

  /** An `HTTPException`: a status code and its detail text. */
  datatype HttpError = HttpError(status: int, detail: string)
}
