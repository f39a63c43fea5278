/**
 * The chat endpoints: creating and listing sessions, reading a session's
 * history, and the websocket channel that authenticates the caller, binds
 * to one of the caller's sessions and then answers every message with the
 * reply generator, storing both sides of the exchange.
 */
module Chat {
  import opened Common
  import opened Store
  import Bot

  const SessionNotFound := HttpError(404, "Session not found")
  const NotYourSession := HttpError(403, "Not authorized to access this session")
  const EmptyMessage := "Message cannot be empty"

  /** `WS_1008_POLICY_VIOLATION`, used when the caller may not use the channel. */
  const PolicyViolation := 1008
  /** The code of a plain `websocket.close()`. */
  const NormalClosure := 1000

  /** A session with its messages, as `get_session_history` returns it. */
  datatype ChatHistory = ChatHistory(session: ChatSession, messages: seq<Message>)

  /** `create_session`: insert a new active session owned by the caller. */
  method CreateSession(db: Database, user: User) returns (s: ChatSession)
    requires db.Valid() && user in db.users
    modifies db
    ensures db.Valid()
    ensures s == ChatSession(|old(db.sessions)| + 1, user.id, true)
    ensures db.sessions == old(db.sessions) + [s]
    ensures db.users == old(db.users) && db.messages == old(db.messages)
  {
    s := ChatSession(|db.sessions| + 1, user.id, true);
    db.sessions := db.sessions + [s];
  }

  /** `get_session_history`: 404 for an unknown id, checked before 403 for another user's session. */
  function GetSessionHistory(sessions: seq<ChatSession>, messages: seq<Message>, sessionId: int, user: User): (r: Result<ChatHistory, HttpError>)
    ensures r == Failure(SessionNotFound) <==> forall s :: s in sessions ==> s.id != sessionId
    ensures r == Failure(NotYourSession) <==>
      FindSession(sessions, sessionId).Some? && FindSession(sessions, sessionId).value.userId != user.id
    ensures r.Success? <==>
      FindSession(sessions, sessionId).Some? && FindSession(sessions, sessionId).value.userId == user.id
    ensures r.Success? ==>
      && r.value.session in sessions
      && r.value.session.id == sessionId
      && r.value.session.userId == user.id
      && (forall m :: m in r.value.messages <==> m in messages && m.sessionId == sessionId)
      && r.value.messages == MessagesOf(messages, sessionId)
  {
    match FindSession(sessions, sessionId)
    case None => Failure(SessionNotFound)
    case Some(s) =>
      if s.userId != user.id then Failure(NotYourSession)
      else Success(ChatHistory(s, MessagesOf(messages, s.id)))
  }

  /** With ids equal to positions plus one, the history outcome depends only on the row at that position. */
  lemma HistoryByPosition(sessions: seq<ChatSession>, messages: seq<Message>, sessionId: int, user: User)
    requires forall i :: 0 <= i < |sessions| ==> sessions[i].id == i + 1
    ensures var r := GetSessionHistory(sessions, messages, sessionId, user);
      && (r == Failure(SessionNotFound) <==> !(1 <= sessionId <= |sessions|))
      && (r == Failure(NotYourSession) <==> 1 <= sessionId <= |sessions| && sessions[sessionId - 1].userId != user.id)
      && (r.Success? <==> 1 <= sessionId <= |sessions| && sessions[sessionId - 1].userId == user.id)
      && (r.Success? ==> r.value == ChatHistory(sessions[sessionId - 1], MessagesOf(messages, sessionId)))
  {
    if 1 <= sessionId <= |sessions| {
      assert sessions[sessionId - 1] in sessions;
      var found := FindSession(sessions, sessionId);
      var k :| 0 <= k < |sessions| && sessions[k] == found.value;
    }
  }

  /** A session just created by its owner has an empty history. */
  lemma NewSessionHistoryEmpty(sessions: seq<ChatSession>, messages: seq<Message>, user: User)
    requires forall i :: 0 <= i < |sessions| ==> sessions[i].id == i + 1
    requires forall i :: 0 <= i < |messages| ==> messages[i].sessionId <= |sessions|
    ensures var s := ChatSession(|sessions| + 1, user.id, true);
      GetSessionHistory(sessions + [s], messages, |sessions| + 1, user) == Success(ChatHistory(s, []))
  {
    var s := ChatSession(|sessions| + 1, user.id, true);
    HistoryByPosition(sessions + [s], messages, |sessions| + 1, user);
    MessagesOfNone(messages, |sessions| + 1);
  }

  /** The decoded claims of an access token; `sub` may be absent. */
  datatype Claims = Claims(sub: Option<string>)

  /** `get_current_user_ws`: no user unless the token decodes, carries `sub` and names a stored user. */
  function CurrentUserWs(decode: string -> Option<Claims>, users: seq<User>, token: string): (r: Option<User>)
    ensures decode(token).None? ==> r.None?
    ensures decode(token).Some? && decode(token).value.sub.None? ==> r.None?
    ensures r.Some? ==> r.value in users && decode(token) == Some(Claims(Some(r.value.username)))
    ensures r.None? && decode(token).Some? && decode(token).value.sub.Some? ==>
      !Taken(users, decode(token).value.sub.value)
  {
    match decode(token)
    case None => None
    case Some(claims) =>
      match claims.sub
      case None => None
      case Some(username) => FindUserByName(users, username)
  }

  /** The channel's gate: the caller must be a stored user who owns the requested session. */
  function Admit(decode: string -> Option<Claims>, users: seq<User>, sessions: seq<ChatSession>, token: string, sessionId: int): (r: Option<ChatSession>)
    ensures CurrentUserWs(decode, users, token).None? ==> r.None?
    ensures FindSession(sessions, sessionId).None? ==> r.None?
    ensures r.Some? <==>
      && CurrentUserWs(decode, users, token).Some?
      && FindSession(sessions, sessionId).Some?
      && FindSession(sessions, sessionId).value.userId == CurrentUserWs(decode, users, token).value.id
    ensures r.Some? ==> r.value in sessions && r.value.id == sessionId
  {
    match CurrentUserWs(decode, users, token)
    case None => None
    case Some(user) =>
      match FindSession(sessions, sessionId)
      case None => None
      case Some(s) => if s.userId != user.id then None else Some(s)
  }

  /** The characters Python's `str.strip` removes, restricted to ASCII. */
  predicate IsSpace(c: char)
  {
    c == ' ' || c == '\t' || c == '\n' || c == '\r' || c == '\U{B}' || c == '\U{C}' ||
    '\U{1C}' <= c <= '\U{1F}'
  }

  /** `str.lstrip()`. */
  function TrimStart(s: string): string
  {
    if |s| > 0 && IsSpace(s[0]) then TrimStart(s[1..]) else s
  }

  /** `str.rstrip()`. */
  function TrimEnd(s: string): string
  {
    if |s| > 0 && IsSpace(s[|s| - 1]) then TrimEnd(s[..|s| - 1]) else s
  }

  /** `str.strip()`: drop leading and trailing whitespace. */
  function Strip(s: string): string
  {
    TrimEnd(TrimStart(s))
  }

  /** Blank text: empty or whitespace only. */
  ghost predicate IsBlank(s: string)
  {
    forall i :: 0 <= i < |s| ==> IsSpace(s[i])
  }

  /** Trimming the front yields a suffix that starts with a non-space, and removes only spaces. */
  lemma {:induction false} TrimStartShape(s: string)
    ensures var r := TrimStart(s);
      && |r| <= |s| && r == s[|s| - |r|..]
      && (r != [] ==> !IsSpace(r[0]))
      && forall i :: 0 <= i < |s| - |r| ==> IsSpace(s[i])
    decreases |s|
  {
    if |s| > 0 && IsSpace(s[0]) {
      TrimStartShape(s[1..]);
      assert forall i :: 1 <= i < |s| ==> s[i] == s[1..][i - 1];
    }
  }

  /** Trimming the back yields a prefix that ends with a non-space, and removes only spaces. */
  lemma {:induction false} TrimEndShape(s: string)
    ensures var r := TrimEnd(s);
      && |r| <= |s| && r == s[..|r|]
      && (r != [] ==> !IsSpace(r[|r| - 1]))
      && forall i :: |r| <= i < |s| ==> IsSpace(s[i])
    decreases |s|
  {
    if |s| > 0 && IsSpace(s[|s| - 1]) {
      TrimEndShape(s[..|s| - 1]);
    }
  }

  /** Trimming the front leaves nothing exactly when the text is blank. */
  lemma {:induction false} TrimStartEmptyIff(s: string)
    ensures TrimStart(s) == [] <==> IsBlank(s)
    decreases |s|
  {
    if |s| > 0 && IsSpace(s[0]) {
      TrimStartEmptyIff(s[1..]);
      assert forall i :: 1 <= i < |s| ==> s[i] == s[1..][i - 1];
    }
  }

  /** A stripped text is empty exactly when the text is blank. */
  lemma StripEmptyIff(s: string)
    ensures Strip(s) == [] <==> IsBlank(s)
  {
    TrimStartEmptyIff(s);
    TrimStartShape(s);
    var t := TrimStart(s);
    TrimEndShape(t);
    if Strip(s) == [] {
      // a non-empty front-trimmed text would start with a non-space that the back trim keeps
      assert t == [];
    }
  }

  /** The `content` member of an inbound JSON object. */
  datatype Field =
    | Missing                    // absent or null: `data.get("content")` is None
    | Str(text: string)
    | NonString(truthy: bool)    // a number, boolean, list or object

  /** One inbound websocket frame. */
  datatype Frame =
    | Object(content: Field)
    | NotObject                  // undecodable text, or JSON that is not an object

  /** What the loop does with one frame. */
  datatype Inbound = Blank | Text(text: string) | Fault

  /**
   * The test at app/api/chat.py:93-98: a falsy or whitespace-only content is blank;
   * a truthy non-string content fails on `.strip()`, and a frame that is
   * not a JSON object fails in `receive_json` or `.get`; both are faults.
   */
  function Classify(f: Frame): (r: Inbound)
    ensures r.Text? <==> f.Object? && f.content.Str? && !IsBlank(f.content.text)
    ensures r.Text? ==> r.text == f.content.text
    ensures r == Fault <==> f == NotObject || f == Object(NonString(true))
  {
    match f
    case NotObject => Fault
    case Object(content) =>
      match content
      case Missing => Blank
      case NonString(truthy) => if truthy then Fault else Blank
      case Str(t) =>
        StripEmptyIff(t);
        if Strip(t) == [] then Blank else Text(t)
  }

  /** A frame sent back to the client (the timestamp is not modelled). */
  datatype Outbound = ErrorReply(error: string) | BotReply(role: string, content: string)

  /** How the channel ended: closed by the server with a code, or by the client. */
  datatype ChannelEnd = Closed(code: int) | Disconnected

  /** What an exchange produced: the frames sent, the message table after it, and how it ended. */
  datatype Exchanged = Exchanged(sent: seq<Outbound>, messages: seq<Message>, end: ChannelEnd)

  function Prepend(sent: seq<Outbound>, x: Exchanged): Exchanged
  {
    Exchanged(sent + x.sent, x.messages, x.end)
  }

  lemma PrependTwice(a: seq<Outbound>, b: seq<Outbound>, x: Exchanged)
    ensures Prepend(a, Prepend(b, x)) == Prepend(a + b, x)
  {
  }

  /** The stored pair for one text: the user message, then the generated reply. */
  function ExchangePair(messages: seq<Message>, sessionId: nat, t: string): (p: seq<Message>)
    ensures |p| == 2
    ensures p[0] == Message(|messages| + 1, sessionId, t, true)
    ensures p[1] == Message(|messages| + 2, sessionId, Bot.GetResponse(t), false)
  {
    [Message(|messages| + 1, sessionId, t, true), Message(|messages| + 2, sessionId, Bot.GetResponse(t), false)]
  }

  /**
   * The receive loop over the frames the client sends, until the client
   * disconnects (the frames run out) or a fault closes the channel.
   */
  function Exchange(sessionId: nat, messages: seq<Message>, inbound: seq<Frame>): Exchanged
    decreases |inbound|
  {
    if |inbound| == 0 then Exchanged([], messages, Disconnected)
    else
      match Classify(inbound[0])
      case Fault => Exchanged([], messages, Closed(NormalClosure))
      case Blank => Prepend([ErrorReply(EmptyMessage)], Exchange(sessionId, messages, inbound[1..]))
      case Text(t) =>
        Prepend([BotReply("bot", Bot.GetResponse(t))],
                Exchange(sessionId, messages + ExchangePair(messages, sessionId, t), inbound[1..]))
  }

  /** One turn of the receive loop, as the loop sees it. */
  lemma ExchangeUnfold(sessionId: nat, messages: seq<Message>, inbound: seq<Frame>, i: nat)
    requires i < |inbound|
    ensures Exchange(sessionId, messages, inbound[i..]) ==
      match Classify(inbound[i])
      case Fault => Exchanged([], messages, Closed(NormalClosure))
      case Blank => Prepend([ErrorReply(EmptyMessage)], Exchange(sessionId, messages, inbound[i + 1..]))
      case Text(t) =>
        Prepend([BotReply("bot", Bot.GetResponse(t))],
                Exchange(sessionId, messages + ExchangePair(messages, sessionId, t), inbound[i + 1..]))
  {
  }

  /** app/api/chat.py:101-117: store the user's message, generate the reply, store the reply. */
  method StoreExchange(db: Database, sessionId: nat, t: string) returns (reply: string)
    requires db.Valid() && 1 <= sessionId <= |db.sessions|
    modifies db
    ensures db.Valid()
    ensures db.users == old(db.users) && db.sessions == old(db.sessions)
    ensures reply == Bot.GetResponse(t)
    ensures db.messages == old(db.messages) + ExchangePair(old(db.messages), sessionId, t)
  {
    var userMessage := Message(|db.messages| + 1, sessionId, t, true);
    AppendMessageValid(db.users, db.sessions, db.messages, userMessage);
    db.messages := db.messages + [userMessage];
    reply := Bot.GetResponse(t);
    var botMessage := Message(|db.messages| + 1, sessionId, reply, false);
    AppendMessageValid(db.users, db.sessions, db.messages, botMessage);
    db.messages := db.messages + [botMessage];
  }

  /** The `while True` loop: receive, classify, store the pair, send the reply. */
  method ReceiveLoop(db: Database, sessionId: nat, inbound: seq<Frame>) returns (sent: seq<Outbound>, end: ChannelEnd)
    requires db.Valid() && 1 <= sessionId <= |db.sessions|
    modifies db
    ensures db.Valid()
    ensures db.users == old(db.users) && db.sessions == old(db.sessions)
    ensures Exchanged(sent, db.messages, end) == Exchange(sessionId, old(db.messages), inbound)
  {
    sent := [];
    var i := 0;
    assert inbound[i..] == inbound;
    while i < |inbound|
      invariant 0 <= i <= |inbound|
      invariant db.Valid()
      invariant db.users == old(db.users) && db.sessions == old(db.sessions)
      invariant Prepend(sent, Exchange(sessionId, db.messages, inbound[i..])) == Exchange(sessionId, old(db.messages), inbound)
    {
      ExchangeUnfold(sessionId, db.messages, inbound, i);
      var frame := Classify(inbound[i]);
      if frame.Fault? {
        return sent, Closed(NormalClosure);
      } else if frame.Blank? {
        PrependTwice(sent, [ErrorReply(EmptyMessage)], Exchange(sessionId, db.messages, inbound[i + 1..]));
        sent := sent + [ErrorReply(EmptyMessage)];
      } else {
        var t := frame.text;
        var reply := StoreExchange(db, sessionId, t);
        PrependTwice(sent, [BotReply("bot", reply)], Exchange(sessionId, db.messages, inbound[i + 1..]));
        sent := sent + [BotReply("bot", reply)];
      }
      i := i + 1;
    }
    assert inbound[i..] == [];
    end := Disconnected;
  }

  /**
   * `added`, stored after `base`, is a run of exchanges: each a user
   * message with non-blank text followed by the generated reply to it,
   * both in session `sessionId` and numbered on from the table's end.
   */
  ghost predicate PairedRun(base: seq<Message>, added: seq<Message>, sessionId: nat)
    decreases |added|
  {
    if |added| == 0 then true
    else
      && |added| >= 2
      && !IsBlank(added[0].content)
      && added[..2] == ExchangePair(base, sessionId, added[0].content)
      && PairedRun(base + added[..2], added[2..], sessionId)
  }

  /** The contents of the bot replies among the frames sent. */
  function RepliesSent(sent: seq<Outbound>): seq<string>
  {
    if |sent| == 0 then []
    else (if sent[0].BotReply? then [sent[0].content] else []) + RepliesSent(sent[1..])
  }

  /** The contents of the generated messages among stored rows. */
  function RepliesStored(ms: seq<Message>): seq<string>
  {
    if |ms| == 0 then []
    else (if !ms[0].isFromUser then [ms[0].content] else []) + RepliesStored(ms[1..])
  }

  /** The loop only appends to the message table, and only whole exchanges. */
  lemma {:induction false} ExchangeAppendsPairs(sessionId: nat, messages: seq<Message>, inbound: seq<Frame>)
    ensures var r := Exchange(sessionId, messages, inbound);
      && |messages| <= |r.messages|
      && r.messages[..|messages|] == messages
      && PairedRun(messages, r.messages[|messages|..], sessionId)
    decreases |inbound|
  {
    if |inbound| > 0 {
      match Classify(inbound[0])
      case Fault =>
      case Blank =>
        ExchangeAppendsPairs(sessionId, messages, inbound[1..]);
      case Text(t) =>
        var pair := ExchangePair(messages, sessionId, t);
        var next := messages + pair;
        ExchangeAppendsPairs(sessionId, next, inbound[1..]);
        var r := Exchange(sessionId, next, inbound[1..]);
        var added := r.messages[|messages|..];
        assert r.messages[..|next|] == next;
        assert added[..2] == r.messages[|messages|..|next|];
        assert r.messages[|messages|..|next|] == next[|messages|..];
        assert next[|messages|..] == pair;
        assert added[2..] == r.messages[|next|..];
        assert messages + added[..2] == next;
    }
  }

  /** Bot replies sent from one stored pair's frame, front to back. */
  lemma RepliesSentPrepend(o: Outbound, rest: seq<Outbound>)
    ensures RepliesSent([o] + rest) == (if o.BotReply? then [o.content] else []) + RepliesSent(rest)
  {
  }

  lemma RepliesStoredPair(pair: seq<Message>, rest: seq<Message>)
    requires |pair| == 2 && pair[0].isFromUser && !pair[1].isFromUser
    ensures RepliesStored(pair + rest) == [pair[1].content] + RepliesStored(rest)
  {
  }

  /** One text frame: its reply leads both the sent replies and the stored replies. */
  lemma RepliesTextStep(messages: seq<Message>, pair: seq<Message>, x: Exchanged, reply: string)
    requires |pair| == 2 && pair[0].isFromUser && !pair[1].isFromUser && pair[1].content == reply
    requires |messages| + 2 <= |x.messages| && x.messages[..|messages| + 2] == messages + pair
    requires RepliesSent(x.sent) == RepliesStored(x.messages[|messages| + 2..])
    ensures RepliesSent([BotReply("bot", reply)] + x.sent) == RepliesStored(x.messages[|messages|..])
  {
    RepliesSentPrepend(BotReply("bot", reply), x.sent);
    assert x.messages[|messages|..|messages| + 2] == (messages + pair)[|messages|..] == pair;
    assert x.messages[|messages|..] == pair + x.messages[|messages| + 2..];
    RepliesStoredPair(pair, x.messages[|messages| + 2..]);
  }

  /** What the client is sent as bot replies is exactly what was stored as bot messages. */
  lemma {:induction false} RepliesSentAreStored(sessionId: nat, messages: seq<Message>, inbound: seq<Frame>)
    ensures var r := Exchange(sessionId, messages, inbound);
      |messages| <= |r.messages| && RepliesSent(r.sent) == RepliesStored(r.messages[|messages|..])
    decreases |inbound|
  {
    if |inbound| > 0 {
      match Classify(inbound[0])
      case Fault =>
      case Blank =>
        RepliesSentAreStored(sessionId, messages, inbound[1..]);
        RepliesSentPrepend(ErrorReply(EmptyMessage), Exchange(sessionId, messages, inbound[1..]).sent);
      case Text(t) =>
        var pair := ExchangePair(messages, sessionId, t);
        var next := messages + pair;
        var x := Exchange(sessionId, next, inbound[1..]);
        RepliesSentAreStored(sessionId, next, inbound[1..]);
        ExchangeAppendsPairs(sessionId, next, inbound[1..]);
        RepliesTextStep(messages, pair, x, Bot.GetResponse(t));
    }
  }

  /** Blank frames get one error each and store nothing. */
  lemma {:induction false} BlankFramesStoreNothing(sessionId: nat, messages: seq<Message>, inbound: seq<Frame>)
    requires forall k :: 0 <= k < |inbound| ==> Classify(inbound[k]) == Blank
    ensures var r := Exchange(sessionId, messages, inbound);
      && r.messages == messages
      && r.end == Disconnected
      && |r.sent| == |inbound|
      && forall k :: 0 <= k < |r.sent| ==> r.sent[k] == ErrorReply(EmptyMessage)
    decreases |inbound|
  {
    if |inbound| > 0 {
      assert Classify(inbound[0]) == Blank;
      assert forall k :: 0 <= k < |inbound[1..]| ==> inbound[1..][k] == inbound[k + 1];
      BlankFramesStoreNothing(sessionId, messages, inbound[1..]);
    }
  }

  /** The channel ends by the client's disconnect exactly when no frame faults; otherwise the server closes it. */
  lemma {:induction false} ExchangeEnd(sessionId: nat, messages: seq<Message>, inbound: seq<Frame>)
    ensures var r := Exchange(sessionId, messages, inbound);
      && (r.end == Disconnected <==> forall k :: 0 <= k < |inbound| ==> Classify(inbound[k]) != Fault)
      && (r.end != Disconnected ==> r.end == Closed(NormalClosure))
    decreases |inbound|
  {
    if |inbound| > 0 {
      var rest := inbound[1..];
      assert forall k :: 1 <= k < |inbound| ==> inbound[k] == rest[k - 1];
      assert forall k :: 0 <= k < |rest| ==> rest[k] == inbound[k + 1];
      match Classify(inbound[0])
      case Fault =>
      case Blank =>
        ExchangeEnd(sessionId, messages, rest);
      case Text(t) =>
        ExchangeEnd(sessionId, messages + ExchangePair(messages, sessionId, t), rest);
    }
  }

  /** Frames after a faulting one are never read. */
  lemma {:induction false} ExchangeStopsAtFault(sessionId: nat, messages: seq<Message>, inbound: seq<Frame>, k: nat)
    requires k < |inbound| && Classify(inbound[k]) == Fault
    ensures Exchange(sessionId, messages, inbound) == Exchange(sessionId, messages, inbound[..k + 1])
    decreases k
  {
    var cut := inbound[..k + 1];
    assert cut[0] == inbound[0];
    if k > 0 {
      assert cut[1..] == inbound[1..][..k];
      match Classify(inbound[0])
      case Fault =>
      case Blank =>
        ExchangeStopsAtFault(sessionId, messages, inbound[1..], k - 1);
      case Text(t) =>
        ExchangeStopsAtFault(sessionId, messages + ExchangePair(messages, sessionId, t), inbound[1..], k - 1);
    }
  }

  /** Every row of a run of exchanges belongs to the run's session. */
  lemma {:induction false} PairedRunSession(base: seq<Message>, added: seq<Message>, sessionId: nat)
    requires PairedRun(base, added, sessionId)
    ensures forall m :: m in added ==> m.sessionId == sessionId
    decreases |added|
  {
    if |added| > 0 {
      PairedRunSession(base + added[..2], added[2..], sessionId);
      assert added == added[..2] + added[2..];
    }
  }

  /** Talking on one session never changes the history of another. */
  lemma ExchangeLeavesOtherHistories(sessionId: nat, messages: seq<Message>, inbound: seq<Frame>, other: nat)
    requires other != sessionId
    ensures MessagesOf(Exchange(sessionId, messages, inbound).messages, other) == MessagesOf(messages, other)
  {
    var r := Exchange(sessionId, messages, inbound);
    ExchangeAppendsPairs(sessionId, messages, inbound);
    var added := r.messages[|messages|..];
    PairedRunSession(messages, added, sessionId);
    assert r.messages == messages + added;
    MessagesOfAppendOther(messages, added, other);
  }

  /** Sending "hi" stores the user message then the greeting, and sends the greeting back. */
  lemma ExchangeHi(sessionId: nat, messages: seq<Message>)
    ensures Exchange(sessionId, messages, [Object(Str("hi"))]) ==
      Exchanged([BotReply("bot", Bot.Greeting)],
                messages + [Message(|messages| + 1, sessionId, "hi", true),
                            Message(|messages| + 2, sessionId, Bot.Greeting, false)],
                Disconnected)
  {
  }

  /** `websocket_endpoint`: gate the caller, then run the receive loop. */
  method WebSocketEndpoint(db: Database, decode: string -> Option<Claims>, sessionId: int, token: string, inbound: seq<Frame>)
    returns (sent: seq<Outbound>, end: ChannelEnd)
    requires db.Valid()
    modifies db
    ensures db.Valid()
    ensures db.users == old(db.users) && db.sessions == old(db.sessions)
    ensures Admit(decode, old(db.users), old(db.sessions), token, sessionId).None? ==>
      sent == [] && end == Closed(PolicyViolation) && db.messages == old(db.messages)
    ensures Admit(decode, old(db.users), old(db.sessions), token, sessionId).Some? ==>
      Exchanged(sent, db.messages, end) == Exchange(sessionId, old(db.messages), inbound)
  {
    var user := CurrentUserWs(decode, db.users, token);
    if user.None? {
      return [], Closed(PolicyViolation);
    }
    var session := FindSession(db.sessions, sessionId);
    if session.None? || session.value.userId != user.value.id {
      return [], Closed(PolicyViolation);
    }
    ghost var k :| 0 <= k < |db.sessions| && db.sessions[k] == session.value;
    sent, end := ReceiveLoop(db, session.value.id, inbound);
  }
}
