/**
 * The relational store behind the handlers, held in memory: the three
 * tables and the lookups the handlers run against them. Primary keys are
 * auto-incremented from 1 and rows are never deleted, so a row's id is its
 * position plus one.
 */
module Store {
  import opened Common

  /** A row of the user table; `hashedPassword` is whatever the hasher produced. */
  datatype User = User(id: nat, username: string, email: string, hashedPassword: string)

  /** A row of the chat-session table (the creation timestamp is not modelled). */
  datatype ChatSession = ChatSession(id: nat, userId: nat, isActive: bool)

  /** A row of the message table (the creation timestamp is not modelled). */
  datatype Message = Message(id: nat, sessionId: nat, content: string, isFromUser: bool)

  /** No two users share a username. */
  ghost predicate UniqueUsernames(users: seq<User>)
  {
    forall i, j :: 0 <= i < j < |users| ==> users[i].username != users[j].username
  }

  /** Some user has this username. */
  ghost predicate Taken(users: seq<User>, username: string)
  {
    exists u :: u in users && u.username == username
  }

  /**
   * Auto-increment ids, unique usernames, and the two foreign keys:
   * every session belongs to a user and every message to a session.
   */
  ghost predicate ValidTables(users: seq<User>, sessions: seq<ChatSession>, messages: seq<Message>)
  {
    && (forall i :: 0 <= i < |users| ==> users[i].id == i + 1)
    && UniqueUsernames(users)
    && (forall i :: 0 <= i < |sessions| ==> sessions[i].id == i + 1 && 1 <= sessions[i].userId <= |users|)
    && (forall i :: 0 <= i < |messages| ==> messages[i].id == i + 1 && 1 <= messages[i].sessionId <= |sessions|)
  }

  /** Appending a message with the next id to an existing session keeps the tables valid. */
  lemma AppendMessageValid(users: seq<User>, sessions: seq<ChatSession>, messages: seq<Message>, m: Message)
    requires ValidTables(users, sessions, messages)
    requires m.id == |messages| + 1 && 1 <= m.sessionId <= |sessions|
    ensures ValidTables(users, sessions, messages + [m])
  {
  }

  /** The in-memory database: the user, chat-session and message tables. */
  class Database {
    var users: seq<User>
    var sessions: seq<ChatSession>
    var messages: seq<Message>

    /** The tables satisfy their keys and foreign keys. */
    ghost predicate Valid()
      reads this
    {
      ValidTables(users, sessions, messages)
    }

    constructor ()
      ensures Valid()
      ensures users == [] && sessions == [] && messages == []
    {
      users, sessions, messages := [], [], [];
    }
  }

  /** `select(User).where(User.username == name)` followed by `.first()`. */
  function FindUserByName(users: seq<User>, username: string): (r: Option<User>)
    ensures r.Some? ==> r.value in users && r.value.username == username
    ensures r.None? <==> !Taken(users, username)
    ensures r.Some? && UniqueUsernames(users) ==>
      forall u :: u in users && u.username == username ==> u == r.value
  {
    if |users| == 0 then None
    else if users[0].username == username then Some(users[0])
    else FindUserByName(users[1..], username)
  }

  /** `select(ChatSession).where(ChatSession.id == id)` followed by `.first()`. */
  function FindSession(sessions: seq<ChatSession>, id: int): (r: Option<ChatSession>)
    ensures r.Some? ==> r.value in sessions && r.value.id == id
    ensures r.None? <==> forall s :: s in sessions ==> s.id != id
  {
    if |sessions| == 0 then None
    else if sessions[0].id == id then Some(sessions[0])
    else FindSession(sessions[1..], id)
  }

  /** `select(ChatSession).where(ChatSession.user_id == id)`: the owner's sessions, in table order. */
  function SessionsOwnedBy(sessions: seq<ChatSession>, userId: nat): (r: seq<ChatSession>)
    ensures forall s :: s in r <==> s in sessions && s.userId == userId
    ensures |r| <= |sessions|
  {
    if |sessions| == 0 then []
    else if sessions[0].userId == userId then [sessions[0]] + SessionsOwnedBy(sessions[1..], userId)
    else SessionsOwnedBy(sessions[1..], userId)
  }

  /** The messages of one session (the `messages` relationship), in table order. */
  function MessagesOf(messages: seq<Message>, sessionId: nat): (r: seq<Message>)
    ensures forall m :: m in r <==> m in messages && m.sessionId == sessionId
    ensures |r| <= |messages|
  {
    if |messages| == 0 then []
    else if messages[0].sessionId == sessionId then [messages[0]] + MessagesOf(messages[1..], sessionId)
    else MessagesOf(messages[1..], sessionId)
  }

  /** Filtering an extended table extends the filtered result by the new row, if it qualifies. */
  lemma {:induction false} SessionsOwnedByAppend(sessions: seq<ChatSession>, s: ChatSession, userId: nat)
    ensures SessionsOwnedBy(sessions + [s], userId) ==
      SessionsOwnedBy(sessions, userId) + (if s.userId == userId then [s] else [])
  {
    if |sessions| > 0 {
      assert (sessions + [s])[1..] == sessions[1..] + [s];
      SessionsOwnedByAppend(sessions[1..], s, userId);
    }
  }

  /** A new row joins the end of its own session's history and no other. */
  lemma {:induction false} MessagesOfAppend(messages: seq<Message>, m: Message, sessionId: nat)
    ensures MessagesOf(messages + [m], sessionId) ==
      MessagesOf(messages, sessionId) + (if m.sessionId == sessionId then [m] else [])
  {
    if |messages| > 0 {
      assert (messages + [m])[1..] == messages[1..] + [m];
      MessagesOfAppend(messages[1..], m, sessionId);
    }
  }

  /** Rows of other sessions never show up in a session's history. */
  lemma {:induction false} MessagesOfAppendOther(messages: seq<Message>, extra: seq<Message>, sessionId: nat)
    requires forall m :: m in extra ==> m.sessionId != sessionId
    ensures MessagesOf(messages + extra, sessionId) == MessagesOf(messages, sessionId)
  {
    if |messages| == 0 {
      MessagesOfNone(extra, sessionId);
      assert messages + extra == extra;
    } else {
      assert (messages + extra)[1..] == messages[1..] + extra;
      MessagesOfAppendOther(messages[1..], extra, sessionId);
    }
  }

  /** A session that no row references has an empty history. */
  lemma MessagesOfNone(messages: seq<Message>, sessionId: nat)
    requires forall m :: m in messages ==> m.sessionId != sessionId
    ensures MessagesOf(messages, sessionId) == []
  {
  }
}
