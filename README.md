# Support-chat backend: a Dafny model of its business logic

The backend lets users register and log in, open chat sessions, read a
session's history, and talk to a rule-based bot over a websocket. This
project models the three pieces of logic behind the web and database
plumbing, and proves properties of them:

- **Reply generator** (`Bot`). `get_response` lower-cases its input and runs
  a fixed chain of substring tests. The first hit picks one of six canned
  replies.
- **Chat endpoints** (`Chat`). Sessions are created, listed and read. History
  reads return 404 before 403. The websocket channel first checks the
  caller's token and session ownership, closing with 1008 on failure. It
  then runs a receive loop. A blank message gets an error frame and stores
  nothing. Any other text stores the user's message and the bot's reply, in
  that order, and sends the reply back.
- **Registration and login** (`Auth`). Registration refuses a taken username
  and stores only the password's hash. Login fails with one fixed 401 error
  whichever of the two inputs is wrong. On success it returns a bearer token
  for the user.

`Store` holds the in-memory database. `Store.Database` is a class holding
the user, session and message tables as sequences. Its invariant
`Store.ValidTables` covers four things:

- auto-increment ids (a row's id is its position plus one);
- unique usernames;
- every session points to an existing user;
- every message points to an existing session.

Each state-changing handler keeps this invariant:
`Auth.Register`, `Chat.CreateSession`, `Chat.StoreExchange`,
`Chat.ReceiveLoop` and `Chat.WebSocketEndpoint`.

The websocket is modelled as two sequences: the frames the client sends,
and the frames the server sends back. When the inbound frames run out, the
client has disconnected. The loop is a method, `Chat.ReceiveLoop`. It is
proved equal to the pure function `Chat.Exchange`, and the loop lemmas are
proved about that function.

Foreign services are passed in as function values, with nothing assumed
about them:

- password hashing, password verification and token issuance
  (`Auth.CredentialService`);
- token decoding (`decode: string -> Option<Claims>`).

Modelling choices:

- Lower-casing and stripping are ASCII only. `Bot.LowerChar` maps `A`-`Z`
  only. `Chat.IsSpace` is the ASCII whitespace that Python's `str.strip`
  removes: space, tab, newline, carriage return, vertical tab, form feed
  and the four separators `\x1c`-`\x1f`.
- Timestamps are left out.
- A new session's `is_active` is taken to be `true`, its column default.
  `app/db/models.py` is not part of this model.
- The `content` of an inbound frame can be missing or null, a string, or a
  non-string JSON value given by its truthiness.
  - A falsy value gets the error reply, as a blank string does.
  - A truthy non-string fails on `.strip()`.
  - A frame that is not a JSON object fails in `receive_json` or `.get`.
  - Both failures land in the catch-all handler, which closes the socket
    with a plain `close()` (code 1000).
- A taken username is refused with status 400, as the code does, although
  the design calls this failure a conflict. An expired token and a
  malformed one are not told apart: both decode to nothing.
- Session history lists the session's messages in table order, that is,
  in creation order. The relationship's declared ordering lives in
  `app/db/models.py`, which is not part of this model.

## Model

| member | source | states |
|---|---|---|
| `Bot.LowerChar` | app/services/bot.py:3 | each upper-case ASCII letter maps to its own lower-case letter (same alphabet position); every other character is unchanged; the result is never upper-case |
| `Bot.Lower` | app/services/bot.py:3 | the lowered string has the same length and no capital letters; each capital becomes its own lower-case letter, and every other character is kept in place |
| `Bot.GetResponse` | app/services/bot.py:2-15 | the reply is always one of the six fixed strings |
| `Bot.ContainsIffOccurs` | app/services/bot.py:4-13 | the scanning substring test holds exactly when the keyword occurs at some offset (Python's `in`) |
| `Bot.LowerIdempotent` | app/services/bot.py:3 | lower-casing twice is the same as once |
| `Bot.CaseInsensitive` | app/services/bot.py:3 | inputs that are equal up to case get the same reply |
| `Bot.ResponseOfLowered` | app/services/bot.py:3 | `get_response(lower(s)) == get_response(s)` |
| `Bot.GreetingIff` | app/services/bot.py:4-5 | greeting exactly when "hello" or "hi" occurs in the lowered input, inside a word too, whatever else occurs |
| `Bot.HelpIff` | app/services/bot.py:6-7 | help reply exactly when "help" occurs and neither "hello" nor "hi" does |
| `Bot.PricingIff` | app/services/bot.py:8-9 | pricing reply exactly when "price" or "pricing" occurs and no earlier keyword does |
| `Bot.ContactIff` | app/services/bot.py:10-11 | contact reply exactly when "contact" occurs and no earlier keyword does |
| `Bot.FarewellIff` | app/services/bot.py:12-13 | farewell exactly when "bye" occurs and no earlier keyword does |
| `Bot.FallbackIff` | app/services/bot.py:14-15 | fallback exactly when none of the seven keywords occurs |
| `Bot.GreetingSamples` | app/services/bot.py:3-5 | "Hello there", "HELLO" and "say hi" get the greeting |
| `Bot.SubstringQuirk` | app/services/bot.py:4-7 | "is this free" and "help with shipping" get the greeting, because "hi" sits inside "this" and "shipping" |
| `Bot.PricingSample` | app/services/bot.py:8-9 | "what is the price?" gets the pricing reply: none of "hello", "hi", "help" occurs in it, and "price" does |
| `Bot.FallbackSample` | app/services/bot.py:14-15 | "xyz" gets the fallback |
| `Store.FindUserByName` | app/api/auth.py:20-21 | the result is a stored user with that name; there is none exactly when the name is free; with unique names it is the only user with that name |
| `Store.FindSession` | app/api/chat.py:41-46 | the result is a stored session with that id; there is none exactly when no session has the id |
| `Store.SessionsOwnedBy` | app/api/chat.py:32-33 | a session is listed exactly when it is stored and owned by the caller |
| `Store.MessagesOf` | app/api/chat.py:43 | a message is in the history exactly when it is stored and belongs to the session; the history keeps table order (see `Store.MessagesOfAppend`) |
| `Store.MessagesOfAppend` | app/api/chat.py:43 | a row added to the table joins the end of its own session's history and leaves every other history unchanged, so a history is in creation order |
| `Store.SessionsOwnedByAppend` | app/api/chat.py:21-33 | after a session is added, the owner's list gains exactly that session at the end, and other users' lists are unchanged |
| `Store.MessagesOfAppendOther` | app/api/chat.py:43 | rows added for other sessions leave a session's history unchanged |
| `Auth.Register` | app/api/auth.py:20-35 | a taken username gives 400 and leaves the table unchanged; otherwise exactly one row is appended and returned without its hash; unique usernames and the other tables are kept |
| `Auth.Login` | app/api/auth.py:42-52 | fails exactly when the user is missing or the password does not verify against the stored hash; every failure is the same 401; success is a token issued for the username with type "bearer" |
| `Auth.LoginIff` | app/api/auth.py:42-49 | with unique usernames, login succeeds exactly when some user has the name and a hash that verifies the password |
| `Auth.LoginFailuresAlike` | app/api/auth.py:44-49 | an unknown username and a wrong password get identical responses |
| `Auth.LoginAfterRegister` | app/api/auth.py:27-52 | registering a free name and logging in with the same password gives a bearer token for that name, when the verifier accepts the hash of a password |
| `Auth.RegisteredNameIsTaken` | app/api/auth.py:20-31 | after a registration the name is taken, so registering it again fails |
| `Chat.CreateSession` | app/api/chat.py:21-25 | appends exactly one active session owned by the caller, with the next id, and returns it; users and messages are unchanged |
| `Chat.GetSessionHistory` | app/api/chat.py:41-53 | 404 exactly when no session has the id; 403 exactly when the session exists and another user owns it; success exactly when a session with the id exists and the caller owns it, and then it is that session with exactly its messages, as `Store.MessagesOf` lists them (table order, by `Store.MessagesOfAppend`) |
| `Chat.HistoryByPosition` | app/api/chat.py:48-53 | with auto-increment ids, 404 exactly when the id is outside the table, 403 exactly when that row's owner differs, success exactly when the id is in the table and the caller owns that row, and then that row and its messages |
| `Chat.NewSessionHistoryEmpty` | app/api/chat.py:21-53 | the owner reading a session just created gets it back with no messages |
| `Chat.CurrentUserWs` | app/api/chat.py:59-68 | no user when the token does not decode or has no `sub`; otherwise the stored user with that name, if any |
| `Chat.Admit` | app/api/chat.py:79-89 | the channel admits exactly when the token gives a user, the session exists, and that user owns it |
| `Chat.TrimStartShape` | app/api/chat.py:96 | left trimming keeps a suffix that starts with a non-space, and drops only spaces |
| `Chat.TrimEndShape` | app/api/chat.py:96 | right trimming keeps a prefix that ends with a non-space, and drops only spaces |
| `Chat.TrimStartEmptyIff` | app/api/chat.py:96 | left trimming leaves nothing exactly when the text is all spaces |
| `Chat.StripEmptyIff` | app/api/chat.py:96 | `strip()` gives the empty string exactly when the text is empty or whitespace only |
| `Chat.Classify` | app/api/chat.py:93-96 | a frame is text exactly when its content is a non-blank string; it is a fault exactly when it is not a JSON object or its content is a truthy non-string; anything else is blank |
| `Chat.StoreExchange` | app/api/chat.py:101-117 | appends exactly that pair to the message table, returns the reply, and keeps the table invariants |
| `Chat.ReceiveLoop` | app/api/chat.py:91-131 | the frames sent, the final message table and how the channel ended are exactly those of the loop specification `Exchange` |
| `Chat.WebSocketEndpoint` | app/api/chat.py:77-131 | closes with 1008, sending and storing nothing, unless admitted; when admitted, behaves as the loop specification; users and sessions are never changed |
| `Chat.ExchangeAppendsPairs` | app/api/chat.py:96-117 | the loop only appends; what it appends is a run of (user text, generated reply) pairs, each user text non-blank |
| `Chat.PairedRunSession` | app/api/chat.py:101-115 | every appended message belongs to the channel's session |
| `Chat.ExchangeLeavesOtherHistories` | app/api/chat.py:101-117 | talking on one session leaves every other session's history unchanged |
| `Chat.RepliesSentAreStored` | app/api/chat.py:110-124 | the bot replies sent to the client are exactly the bot messages stored, in order |
| `Chat.BlankFramesStoreNothing` | app/api/chat.py:96-98 | blank frames each get the error reply, store nothing, and the loop goes on |
| `Chat.ExchangeEnd` | app/api/chat.py:91-131 | the channel ends by client disconnect exactly when no frame faults; otherwise the server closes it with code 1000 |
| `Chat.ExchangeStopsAtFault` | app/api/chat.py:128-131 | frames after a faulting one are never read |
| `Chat.ExchangeHi` | app/api/chat.py:101-124 | sending "hi" stores exactly two messages, the user's then the greeting, and sends the greeting with role "bot" |

## Left out

- Token signing, decoding and expiry, and password hashing and verification. These are foreign cryptography. They appear only as function values, and nothing is assumed about them. `Auth.LoginAfterRegister` takes "the verifier accepts the hash of the password" as its hypothesis.
- `app/api/deps.py` (`get_current_user`) is not part of this model. The request handlers take the authenticated user as a parameter, with the precondition that it is a stored user, and its 401 path is not modelled. The same `sub` rule is modelled for the websocket in `Chat.CurrentUserWs`.
- The ORM, async sessions, commits and refreshes, and HTTP routing. The tables are sequences. A commit is the sequence update, and commit failures are not modelled.
- The websocket transport: `accept`, the wire encoding of frames, and the logging `print` in the catch-all handler. A disconnect is the end of the inbound sequence. An unexpected fault is a `Fault` frame. Faults inside the database or the bot are not modelled.
- `created_at` timestamps, including the `timestamp` field of the bot's reply frame. They are clock values from the database.
- Unicode behaviour of Python's `lower()` and `strip()`. Both are modelled on ASCII only.
- The `UserCreate` request model is not part of this model. `email` is taken as a plain string.
- Concurrency. Each handler is modelled as one atomic step, run one at a time. In the code, two registrations of the same name can interleave between the lookup (app/api/auth.py:20-21) and the insert (app/api/auth.py:32-33), so both pass the check. `Auth.Register` keeps unique usernames only under this atomicity; any database constraint lives in `app/db/models.py`, which is not part of this model.
- `Auth.Login`: the `WWW-Authenticate: Bearer` header sent with the 401 (app/api/auth.py:48) is not modelled; `Common.HttpError` carries only a status and a detail.
- `main.py`, `manage.py`, `app/main.py` and `app/core/config.py`. These are a legacy ORM wrapper, the migration CLI, app wiring and settings loading.
