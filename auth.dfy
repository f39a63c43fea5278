/**
 * Registration and login. Password hashing, password verification and
 * access-token issuance are foreign cryptographic services: the model takes
 * them as function values and assumes nothing about them beyond being
 * functions.
 */
module Auth {
  import opened Common
  import opened Store

  /** The hasher, the verifier and the token issuer the handlers call. */
  datatype CredentialService = CredentialService(
    hash: string -> string,
    verify: (string, string) -> bool,
    issueToken: string -> string)

  /** The registration payload. */
  datatype UserCreate = UserCreate(username: string, email: string, password: string)

  /** The public projection of a user returned by registration: no credential in it. */
  datatype UserOut = UserOut(id: nat, username: string, email: string)

  /** The login response. */
  datatype Token = Token(accessToken: string, tokenType: string)

  const UsernameTaken := HttpError(400, "The user with this username already exists in the system")
  const BadCredentials := HttpError(401, "Incorrect username or password")

  /** The row registration inserts: the stored credential is the hash, never the password. */
  function NewUser(id: nat, userIn: UserCreate, cred: CredentialService): (u: User)
    ensures u.id == id && u.username == userIn.username && u.email == userIn.email
    ensures u.hashedPassword == cred.hash(userIn.password)
  {
    User(id, userIn.username, userIn.email, cred.hash(userIn.password))
  }

  function PublicView(u: User): (o: UserOut)
    ensures o.id == u.id && o.username == u.username && o.email == u.email
  {
    UserOut(u.id, u.username, u.email)
  }

  /** `register`: reject a taken username, otherwise insert the new user. */
  method Register(db: Database, cred: CredentialService, userIn: UserCreate) returns (r: Result<UserOut, HttpError>)
    requires db.Valid()
    modifies db
    ensures db.Valid()
    ensures Taken(old(db.users), userIn.username) ==>
      r == Failure(UsernameTaken) && db.users == old(db.users)
    ensures !Taken(old(db.users), userIn.username) ==>
      var u := NewUser(|old(db.users)| + 1, userIn, cred);
      db.users == old(db.users) + [u] && r == Success(PublicView(u))
    ensures db.sessions == old(db.sessions) && db.messages == old(db.messages)
  {
    var existing := FindUserByName(db.users, userIn.username);
    if existing.Some? {
      return Failure(UsernameTaken);
    }
    var u := NewUser(|db.users| + 1, userIn, cred);
    db.users := db.users + [u];
    r := Success(PublicView(u));
  }

  /** `login_access_token`: look the user up, verify the password, issue a bearer token. */
  function Login(users: seq<User>, cred: CredentialService, username: string, password: string): (r: Result<Token, HttpError>)
    ensures r.Failure? <==>
      match FindUserByName(users, username)
      case None => true
      case Some(u) => !cred.verify(password, u.hashedPassword)
    ensures r.Failure? ==> r.error == BadCredentials
    ensures r.Success? ==> r.value == Token(cred.issueToken(username), "bearer")
  {
    match FindUserByName(users, username)
    case None => Failure(BadCredentials)
    case Some(u) =>
      if !cred.verify(password, u.hashedPassword) then Failure(BadCredentials)
      else Success(Token(cred.issueToken(u.username), "bearer"))
  }

  /** Over a table with unique usernames, login succeeds exactly when the named user's stored hash verifies. */
  lemma LoginIff(users: seq<User>, cred: CredentialService, username: string, password: string)
    requires UniqueUsernames(users)
    ensures Login(users, cred, username, password).Success? <==>
      exists u :: u in users && u.username == username && cred.verify(password, u.hashedPassword)
  {
  }

  /** An unknown username and a wrong password are answered identically. */
  lemma LoginFailuresAlike(users: seq<User>, cred: CredentialService, unknown: string, known: string, password: string, wrong: string)
    requires !Taken(users, unknown)
    requires FindUserByName(users, known).Some?
    requires !cred.verify(wrong, FindUserByName(users, known).value.hashedPassword)
    ensures Login(users, cred, unknown, password) == Login(users, cred, known, wrong) == Failure(BadCredentials)
  {
  }

  /**
   * Registering a free username and then logging in with the same password
   * yields a bearer token for that username, provided the verifier accepts
   * the hash of a password.
   */
  lemma LoginAfterRegister(users: seq<User>, cred: CredentialService, userIn: UserCreate)
    requires !Taken(users, userIn.username)
    requires cred.verify(userIn.password, cred.hash(userIn.password))
    ensures Login(users + [NewUser(|users| + 1, userIn, cred)], cred, userIn.username, userIn.password)
      == Success(Token(cred.issueToken(userIn.username), "bearer"))
  {
  }

  /** A second registration of the same username is refused. */
  lemma RegisteredNameIsTaken(users: seq<User>, cred: CredentialService, userIn: UserCreate)
    ensures Taken(users + [NewUser(|users| + 1, userIn, cred)], userIn.username)
  {
  }
}
