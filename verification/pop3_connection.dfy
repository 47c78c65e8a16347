/** The POP3 session engine (`src/pop3/connection.rs`): the framer that
    turns socket reads into commands, and the AUTHORIZATION and
    TRANSACTION dispatch tables of RFC 1939 sections 4 and 5.

    A session is a pure state machine. Each event is one socket read (an
    empty read means the peer closed the stream); each step emits the
    responses written to the socket and, when the server shuts the stream
    down, a `Close`. UTF-8 decoding, e-mail address validation and the
    credential store are collaborators passed in as functions. */
module Pop3Connection {
  import opened Wrappers
  import opened Bytes
  import opened Pop3Command
  import Pop3Response

  type Response = Pop3Response.Response

  /** A row of the user table: the address and the stored password hash. */
  datatype Account = Account(emailAddress: string, passwordHash: string)

  /** The code outside the engine: `str::from_utf8`,
      `EmailAddress::from_str` and `user_database::authenticate_user`,
      whose `Failure` is a database error. */
  datatype Collaborators = Collaborators(
    utf8: seq<byte> -> Option<string>,
    isAddress: string -> bool,
    authenticate: (string, string) -> Result<Option<Account>, string>)

  /** How a session came to an end.
      `Closed`: the client sent QUIT and the server shut the stream down.
      `Declined`: APOP ended the authorization without a transaction.
      `Aborted`: the peer closed the stream; the server shut it down too.
      `Failed`: the credential store reported an error.
      `Panicked`: PASS arrived with no remembered user name. */
  datatype Ending = Closed | Declined | Aborted | Failed | Panicked

  datatype Phase =
    | Authorization(username: Option<string>)
    | Transaction(user: Account)
    | Ended(ending: Ending)

  /** `POP3Connection`: the read buffer and the connection state. */
  datatype Session = Session(buffer: seq<byte>, phase: Phase)

  datatype Output = Send(response: Response) | Close

  datatype Transition = Transition(next: Session, out: seq<Output>)

  function Positive(message: seq<byte>): Output {
    Send(Pop3Response.Response(Pop3Response.Positive, message))
  }

  function Negative(message: seq<byte>): Output {
    Send(Pop3Response.Response(Pop3Response.Negative, message))
  }

  const HELLO: seq<byte> := [104, 101, 108, 108, 111]  // "hello"
  const AUTHENTICATED: seq<byte> := [65, 117, 116, 104, 101, 110, 116, 105, 99, 97, 116, 101, 100]  // "Authenticated"
  // "Username or password is not valid"
  const NOT_VALID: seq<byte> :=
    [85, 115, 101, 114, 110, 97, 109, 101, 32, 111, 114, 32, 112, 97, 115, 115, 119, 111, 114,
     100, 32, 105, 115, 32, 110, 111, 116, 32, 118, 97, 108, 105, 100]
  const CAPABILITIES: seq<byte> := [13, 10, 85, 83, 69, 82]  // "\r\nUSER"
  // "command not valid during authentication"
  const NOT_DURING_AUTHORIZATION: seq<byte> :=
    [99, 111, 109, 109, 97, 110, 100, 32, 110, 111, 116, 32, 118, 97, 108, 105, 100, 32, 100,
     117, 114, 105, 110, 103, 32, 97, 117, 116, 104, 101, 110, 116, 105, 99, 97, 116, 105, 111, 110]
  const UNSUPPORTED: seq<byte> := [117, 110, 115, 117, 112, 112, 111, 114, 116, 101, 100]  // "unsupported"
  // "command not valid during transaction"
  const NOT_DURING_TRANSACTION: seq<byte> :=
    [99, 111, 109, 109, 97, 110, 100, 32, 110, 111, 116, 32, 118, 97, 108, 105, 100, 32, 100,
     117, 114, 105, 110, 103, 32, 116, 114, 97, 110, 115, 97, 99, 116, 105, 111, 110]
  const UNKNOWN_COMMAND: seq<byte> := [117, 110, 107, 110, 111, 119, 110, 32, 99, 111, 109, 109, 97, 110, 100]  // "unknown command"
  const STAT_BODY: seq<byte> := [49, 32, 49, 48, 48]  // "1 100"
  const LIST_BODY: seq<byte> := [13, 10, 49, 32, 49, 48, 48]  // "\r\n1 100"
  // "\r\nTo: mghebrialjr@localhost\r\nSubject: this is a message"
  const RETRIEVE_BODY: seq<byte> := CRLF + RETRIEVE_TO + CRLF + RETRIEVE_SUBJECT
  const RETRIEVE_TO: seq<byte> := [84, 111, 58, 32, 109, 103, 104, 101, 98, 114, 105, 97, 108, 106, 114, 64, 108, 111, 99, 97, 108, 104, 111, 115, 116]  // "To: mghebrialjr@localhost"
  const RETRIEVE_SUBJECT: seq<byte> := [83, 117, 98, 106, 101, 99, 116, 58, 32, 116, 104, 105, 115, 32, 105, 115, 32, 97, 32, 109, 101, 115, 115, 97, 103, 101]  // "Subject: this is a message"

  // ---------------------------------------------------------------------
  // The framer: `read_command`
  // ---------------------------------------------------------------------

  /** What one read does to the buffer. */
  datatype Framed =
    | PeerClosed
    | KeepReading(buffer: seq<byte>)
    | Complete(command: Command)
    | UnknownVerb
    | Discarded

  /** One turn of the loop in `read_command`: append the octets read, then
      parse the whole buffer. */
  function ReadCommand(buffer: seq<byte>, chunk: seq<byte>): (r: Framed)
    ensures r.PeerClosed? <==> |chunk| == 0
    ensures r.KeepReading? <==> |chunk| > 0 && !EndsWith(buffer + chunk, CRLF)
    ensures r.KeepReading? ==> r.buffer == buffer + chunk
    ensures r.Complete? ==> |chunk| > 0 && Parse(buffer + chunk) == Success(r.command)
    ensures r.UnknownVerb? <==>
              |chunk| > 0 && Parse(buffer + chunk).Failure? && Parse(buffer + chunk).error.UnknownCommand?
    ensures r.Discarded? <==>
              |chunk| > 0 && (buffer + chunk == CRLF || Parse(buffer + chunk) == Failure(InvalidArguments))
  {
    if |chunk| == 0 then PeerClosed
    else
      var frame := buffer + chunk;
      match Parse(frame)
      case Success(c) => Complete(c)
      case Failure(IncompleteResponse) => KeepReading(frame)
      case Failure(UnknownCommand(_)) => UnknownVerb
      case Failure(_) => Discarded
  }

  // ---------------------------------------------------------------------
  // The dispatch tables: `authenticate` and `transaction`
  // ---------------------------------------------------------------------

  /** The user name USER remembers: the argument if it is UTF-8 and an
      e-mail address, and none otherwise. */
  function RememberedName(env: Collaborators, username: seq<byte>): (r: Option<string>)
    ensures r.Some? <==> env.utf8(username).Some? && env.isAddress(env.utf8(username).value)
    ensures r.Some? ==> r.value == env.utf8(username).value
  {
    match env.utf8(username)
    case Some(s) => if env.isAddress(s) then Some(s) else None
    case None => None
  }

  /** The credential check succeeds: a remembered name, a UTF-8 password,
      and an account returned by the store. */
  predicate Vouches(env: Collaborators, username: Option<string>, password: seq<byte>) {
    username.Some? && env.utf8(password).Some? &&
    var reply := env.authenticate(username.value, env.utf8(password).value);
    reply.Success? && reply.value.Some?
  }

  /** PASS: check the password against the remembered name. */
  function CheckPassword(env: Collaborators, username: Option<string>, password: seq<byte>): (r: Transition)
    ensures r.next.buffer == []
    ensures r.next.phase.Transaction? <==> Vouches(env, username, password)
    ensures r.next.phase.Transaction? ==>
              env.authenticate(username.value, env.utf8(password).value) == Success(Some(r.next.phase.user)) &&
              r.out == [Positive(AUTHENTICATED)]
    ensures r.next.phase == Ended(Panicked) <==> env.utf8(password).Some? && username.None?
    ensures r.next.phase == Ended(Failed) <==>
              env.utf8(password).Some? && username.Some? &&
              env.authenticate(username.value, env.utf8(password).value).Failure?
    ensures r.next.phase.Authorization? ==> r.next.phase.username == username && r.out == [Negative(NOT_VALID)]
    ensures env.utf8(password).None? ||
            (username.Some? && env.authenticate(username.value, env.utf8(password).value) == Success(None)) ==>
              r == Transition(Session([], Authorization(username)), [Negative(NOT_VALID)])
  {
    match env.utf8(password)
    case None => Transition(Session([], Authorization(username)), [Negative(NOT_VALID)])
    case Some(pw) =>
      if username.None? then
        Transition(Session([], Ended(Panicked)), [])
      else
        match env.authenticate(username.value, pw)
        case Failure(_) => Transition(Session([], Ended(Failed)), [])
        case Success(Some(user)) => Transition(Session([], Transaction(user)), [Positive(AUTHENTICATED)])
        case Success(None) => Transition(Session([], Authorization(username)), [Negative(NOT_VALID)])
  }

  /** The AUTHORIZATION state: one command. */
  function Authorize(env: Collaborators, username: Option<string>, c: Command): (r: Transition)
    ensures r.next.buffer == []
    ensures c.Username? ==>
              r == Transition(Session([], Authorization(RememberedName(env, c.username))), [Positive([])])
    ensures c.Apop? ==> r == Transition(Session([], Ended(Declined)), [Positive([])])
    ensures c.Quit? ==> r == Transition(Session([], Ended(Closed)), [Close])
    ensures c.Capabilities? ==> r == Transition(Session([], Authorization(username)), [Positive(CAPABILITIES)])
    ensures c.Password? ==> r == CheckPassword(env, username, c.password)
    ensures !(c.Username? || c.Password? || c.Apop? || c.Quit? || c.Capabilities?) ==>
              r == Transition(Session([], Authorization(username)), [Negative(NOT_DURING_AUTHORIZATION)])
  {
    match c
    case Username(u) => Transition(Session([], Authorization(RememberedName(env, u))), [Positive([])])
    case Password(p) => CheckPassword(env, username, p)
    case Apop(_, _) => Transition(Session([], Ended(Declined)), [Positive([])])
    case Quit => Transition(Session([], Ended(Closed)), [Close])
    case Capabilities => Transition(Session([], Authorization(username)), [Positive(CAPABILITIES)])
    case _ => Transition(Session([], Authorization(username)), [Negative(NOT_DURING_AUTHORIZATION)])
  }

  /** The reply the TRANSACTION state sends to a command other than QUIT. */
  function TransactionReply(c: Command): (o: Output)
    requires !c.Quit?
    ensures o.Send?
    ensures o.response.status == Pop3Response.Positive <==>
              c.Stat? || c.List? || c.Retrieve? || c.Delete? || c.NoOp? || c.Reset? || c.Capabilities?
    ensures c.Stat? ==> o == Positive(STAT_BODY)
    ensures c.List? ==> o == Positive(LIST_BODY)
    ensures c.Retrieve? ==> o == Positive(RETRIEVE_BODY)
    ensures c.Capabilities? ==> o == Positive(CAPABILITIES)
    ensures c.Delete? || c.NoOp? || c.Reset? ==> o == Positive([])
    ensures c.Top? || c.UniqueIdListing? ==> o == Negative(UNSUPPORTED)
    ensures c.Username? || c.Password? || c.Apop? ==> o == Negative(NOT_DURING_TRANSACTION)
  {
    match c
    case Stat => Positive(STAT_BODY)
    case List(_) => Positive(LIST_BODY)
    case Retrieve(_) => Positive(RETRIEVE_BODY)
    case Delete(_) => Positive([])
    case NoOp => Positive([])
    case Reset => Positive([])
    case Top(_, _) => Negative(UNSUPPORTED)
    case UniqueIdListing(_) => Negative(UNSUPPORTED)
    case Capabilities => Positive(CAPABILITIES)
    case _ => Negative(NOT_DURING_TRANSACTION)
  }

  /** The TRANSACTION state: one command. Only QUIT leaves it. */
  function Transact(user: Account, c: Command): (r: Transition)
    ensures r.next.buffer == []
    ensures c.Quit? <==> r.next.phase == Ended(Closed)
    ensures c.Quit? ==> r.out == [Close]
    ensures !c.Quit? ==> r.next.phase == Transaction(user) && |r.out| == 1 && r.out[0].Send?
    ensures !c.Quit? ==> r.out == [TransactionReply(c)]
  {
    if c.Quit? then Transition(Session([], Ended(Closed)), [Close])
    else Transition(Session([], Transaction(user)), [TransactionReply(c)])
  }

  // ---------------------------------------------------------------------
  // The session
  // ---------------------------------------------------------------------

  /** `from_stream` followed by the greeting at the start of
      `authenticate`. */
  function Start(): (r: Transition)
    ensures r.next.phase == Authorization(None) && r.next.buffer == []
    ensures r.out == [Positive(HELLO)]
  {
    Transition(Session([], Authorization(None)), [Positive(HELLO)])
  }

  /** One socket read. An ended session ignores every event. */
  function Step(env: Collaborators, s: Session, chunk: seq<byte>): (r: Transition)
    ensures s.phase.Ended? ==> r == Transition(s, [])
    ensures !s.phase.Ended? && |chunk| == 0 ==> r == Transition(s.(phase := Ended(Aborted)), [Close])
    ensures !s.phase.Ended? && |chunk| > 0 ==> !EndsWith(r.next.buffer, CRLF)
    ensures !s.phase.Ended? && |chunk| > 0 && !EndsWith(s.buffer + chunk, CRLF) ==>
              r == Transition(s.(buffer := s.buffer + chunk), [])
    ensures !s.phase.Ended? && |chunk| > 0 && EndsWith(s.buffer + chunk, CRLF) ==> r.next.buffer == []
    ensures s.phase.Authorization? && |chunk| > 0 && Parse(s.buffer + chunk).Success? ==>
              r == Authorize(env, s.phase.username, Parse(s.buffer + chunk).value)
    ensures s.phase.Transaction? && |chunk| > 0 && Parse(s.buffer + chunk).Success? ==>
              r == Transact(s.phase.user, Parse(s.buffer + chunk).value)
  {
    if s.phase.Ended? then Transition(s, [])
    else Advance(env, s, ReadCommand(s.buffer, chunk))
  }

  /** What a live session does with the outcome of one read. */
  function Advance(env: Collaborators, s: Session, f: Framed): (r: Transition)
    requires !s.phase.Ended?
    ensures f.PeerClosed? ==> r == Transition(s.(phase := Ended(Aborted)), [Close])
    ensures f.KeepReading? ==> r == Transition(s.(buffer := f.buffer), [])
    ensures f.UnknownVerb? ==> r == Transition(Session([], s.phase), [Negative(UNKNOWN_COMMAND)])
    ensures f.Discarded? ==> r == Transition(Session([], s.phase), [])
    ensures f.Complete? ==> r.next.buffer == []
    ensures f.Complete? && s.phase.Authorization? ==> r == Authorize(env, s.phase.username, f.command)
    ensures f.Complete? && s.phase.Transaction? ==> r == Transact(s.phase.user, f.command)
  {
    match f
    case PeerClosed => Transition(s.(phase := Ended(Aborted)), [Close])
    case KeepReading(b) => Transition(s.(buffer := b), [])
    case UnknownVerb => Transition(s.(buffer := []), [Negative(UNKNOWN_COMMAND)])
    case Discarded => Transition(s.(buffer := []), [])
    case Complete(c) =>
      match s.phase
      case Authorization(username) => Authorize(env, username, c)
      case Transaction(user) => Transact(user, c)
  }

  /** A sequence of socket reads, with every output in order. */
  function Run(env: Collaborators, s: Session, chunks: seq<seq<byte>>): (r: Transition)
    ensures |chunks| == 0 ==> r == Transition(s, [])
    ensures s.phase.Ended? ==> r == Transition(s, [])
    decreases |chunks|
  {
    if |chunks| == 0 then Transition(s, [])
    else
      var first := Step(env, s, chunks[0]);
      var rest := Run(env, first.next, chunks[1..]);
      Transition(rest.next, first.out + rest.out)
  }

  // ---------------------------------------------------------------------
  // Properties of the session
  // ---------------------------------------------------------------------

  /** The store returned `user` for some valid address and password. */
  ghost predicate Vouched(env: Collaborators, user: Account) {
    exists name, password :: env.isAddress(name) && env.authenticate(name, password) == Success(Some(user))
  }

  /** What holds between events: the buffer never holds a complete frame,
      a remembered name is an address, and a transaction belongs to an
      account the store returned. */
  ghost predicate Consistent(env: Collaborators, s: Session) {
    !EndsWith(s.buffer, CRLF) &&
    (s.phase.Authorization? && s.phase.username.Some? ==> env.isAddress(s.phase.username.value)) &&
    (s.phase.Transaction? ==> Vouched(env, s.phase.user))
  }

  lemma StartConsistent(env: Collaborators)
    ensures Consistent(env, Start().next)
  {
  }

  lemma StepConsistent(env: Collaborators, s: Session, chunk: seq<byte>)
    requires Consistent(env, s)
    ensures Consistent(env, Step(env, s, chunk).next)
  {
    if !s.phase.Ended? {
      AdvanceConsistent(env, s, ReadCommand(s.buffer, chunk));
    }
  }

  lemma AdvanceConsistent(env: Collaborators, s: Session, f: Framed)
    requires Consistent(env, s) && !s.phase.Ended?
    requires f.KeepReading? ==> !EndsWith(f.buffer, CRLF)
    ensures Consistent(env, Advance(env, s, f).next)
  {
    if f.Complete? && s.phase.Authorization? && f.command.Password? {
      var name := s.phase.username;
      var r := CheckPassword(env, name, f.command.password);
      if r.next.phase.Transaction? {
        var pw := env.utf8(f.command.password).value;
        assert env.isAddress(name.value) && env.authenticate(name.value, pw) == Success(Some(r.next.phase.user));
      }
    }
  }

  lemma {:induction false} RunConsistent(env: Collaborators, s: Session, chunks: seq<seq<byte>>)
    requires Consistent(env, s)
    ensures Consistent(env, Run(env, s, chunks).next)
    decreases |chunks|
  {
    if |chunks| > 0 {
      StepConsistent(env, s, chunks[0]);
      RunConsistent(env, Step(env, s, chunks[0]).next, chunks[1..]);
    }
  }

  /** Whatever the client sends, a session in TRANSACTION is logged in as
      an account the store returned for a valid address. */
  lemma TransactionIsVouched(env: Collaborators, chunks: seq<seq<byte>>)
    ensures var s := Run(env, Start().next, chunks).next;
            s.phase.Transaction? ==> Vouched(env, s.phase.user)
  {
    StartConsistent(env);
    RunConsistent(env, Start().next, chunks);
  }

  /** `begin` enters `transaction` only when `authenticate` returns true:
      the one step from AUTHORIZATION to TRANSACTION is a PASS the store
      accepts. */
  lemma TransactionOnlyAfterPass(env: Collaborators, s: Session, chunk: seq<byte>)
    requires s.phase.Authorization?
    ensures Step(env, s, chunk).next.phase.Transaction? <==>
              |chunk| > 0 && Parse(s.buffer + chunk).Success? && Parse(s.buffer + chunk).value.Password? &&
              Vouches(env, s.phase.username, Parse(s.buffer + chunk).value.password)
  {
    AdvanceEntersTransaction(env, s, ReadCommand(s.buffer, chunk));
  }

  lemma AdvanceEntersTransaction(env: Collaborators, s: Session, f: Framed)
    requires s.phase.Authorization?
    ensures Advance(env, s, f).next.phase.Transaction? <==>
              f.Complete? && f.command.Password? && Vouches(env, s.phase.username, f.command.password)
  {
  }

  /** TRANSACTION is left only by QUIT or by the peer closing the stream,
      and never for AUTHORIZATION. */
  lemma TransactionAbsorbing(env: Collaborators, s: Session, chunk: seq<byte>)
    requires s.phase.Transaction?
    ensures var p := Step(env, s, chunk).next.phase;
            p == s.phase || p == Ended(Closed) || p == Ended(Aborted)
    ensures Step(env, s, chunk).next.phase == Ended(Closed) <==>
              |chunk| > 0 && Parse(s.buffer + chunk) == Success(Quit)
  {
  }

  /** A session that has left AUTHORIZATION never comes back to it. */
  lemma {:induction false} NoReturnToAuthorization(env: Collaborators, s: Session, chunks: seq<seq<byte>>)
    requires !s.phase.Authorization?
    ensures !Run(env, s, chunks).next.phase.Authorization?
    decreases |chunks|
  {
    if |chunks| > 0 {
      var first := Step(env, s, chunks[0]);
      if s.phase.Transaction? {
        TransactionAbsorbing(env, s, chunks[0]);
      }
      NoReturnToAuthorization(env, first.next, chunks[1..]);
    }
  }

  /** A command verb the engine does not know is answered with
      "unknown command" and forgotten; the state stays as it was. */
  lemma UnknownVerbKeepsPhase(env: Collaborators, s: Session, chunk: seq<byte>)
    requires !s.phase.Ended? && |chunk| > 0
    requires Parse(s.buffer + chunk).Failure? && Parse(s.buffer + chunk).error.UnknownCommand?
    ensures Step(env, s, chunk) == Transition(Session([], s.phase), [Negative(UNKNOWN_COMMAND)])
  {
  }

  /** A frame with no verb or with bad arguments is dropped silently. */
  lemma BadFrameDropped(env: Collaborators, s: Session, chunk: seq<byte>)
    requires !s.phase.Ended? && |chunk| > 0
    requires s.buffer + chunk == CRLF || Parse(s.buffer + chunk) == Failure(InvalidArguments)
    ensures Step(env, s, chunk) == Transition(Session([], s.phase), [])
  {
  }

  /** A well-formed command arriving whole on an empty buffer is handed
      to the dispatch table of the current state. */
  lemma StepWholeCommand(env: Collaborators, s: Session, c: Command)
    requires WellFormed(c) && s.buffer == []
    ensures s.phase.Authorization? ==> Step(env, s, Serialize(c)) == Authorize(env, s.phase.username, c)
    ensures s.phase.Transaction? ==> Step(env, s, Serialize(c)) == Transact(s.phase.user, c)
  {
    ParseSerialize(c);
    assert s.buffer + Serialize(c) == Serialize(c);
    if !s.phase.Ended? {
      StepParsed(env, s, Serialize(c), c);
    }
  }

  /** A PASS the engine cannot use (not UTF-8, or unknown to the store)
      is refused with "Username or password is not valid", and the
      remembered name is kept for the next attempt. */
  lemma RejectedPassKeepsName(env: Collaborators, s: Session, p: seq<byte>)
    requires s.buffer == [] && s.phase.Authorization? && WellFormedArg(p)
    requires env.utf8(p).None? ||
             (s.phase.username.Some? && env.authenticate(s.phase.username.value, env.utf8(p).value) == Success(None))
    ensures Step(env, s, Serialize(Password(p))) == Transition(Session([], s.phase), [Negative(NOT_VALID)])
  {
    StepWholeCommand(env, s, Password(p));
  }

  /** In TRANSACTION every command but QUIT, arriving whole, gets the
      state's fixed reply and keeps the session logged in. */
  lemma TransactionReplies(env: Collaborators, s: Session, c: Command)
    requires s.buffer == [] && s.phase.Transaction? && WellFormed(c) && !c.Quit?
    ensures Step(env, s, Serialize(c)) == Transition(Session([], s.phase), [TransactionReply(c)])
  {
    StepWholeCommand(env, s, c);
  }

  /** A read that completes a frame, however many reads built it, hands
      its command to the dispatch table of the current state. */
  lemma StepParsed(env: Collaborators, s: Session, chunk: seq<byte>, c: Command)
    requires !s.phase.Ended? && |chunk| > 0 && Parse(s.buffer + chunk) == Success(c)
    ensures s.phase.Authorization? ==> Step(env, s, chunk) == Authorize(env, s.phase.username, c)
    ensures s.phase.Transaction? ==> Step(env, s, chunk) == Transact(s.phase.user, c)
  {
  }

  /** A command that arrives in two reads, the first without its CRLF, is
      buffered and then handed to the state's table like one that arrives
      whole. */
  lemma SplitReadDelivered(env: Collaborators, s: Session, p: seq<byte>, q: seq<byte>, c: Command)
    requires WellFormed(c) && s.buffer == [] && !s.phase.Ended?
    requires |p| > 0 && |q| > 0 && p + q == Serialize(c) && !EndsWith(p, CRLF)
    ensures s.phase.Authorization? ==> Run(env, s, [p, q]) == Authorize(env, s.phase.username, c)
    ensures s.phase.Transaction? ==> Run(env, s, [p, q]) == Transact(s.phase.user, c)
  {
    assert s.buffer + p == p;
    var t0 := Transition(s.(buffer := p), []);
    ParseSerialize(c);
    StepParsed(env, t0.next, q, c);
    var t1 := Step(env, t0.next, q);
    RunTwoSteps(env, s, p, q, t0, t1);
    assert t0.out + t1.out == t1.out;
  }

  /** `n` copies of one item. */
  function Copies<T>(x: T, n: nat): (r: seq<T>)
    ensures |r| == n && forall k :: 0 <= k < n ==> r[k] == x
  {
    if n == 0 then [] else [x] + Copies(x, n - 1)
  }

  /** The reply to NOOP: "+OK" in TRANSACTION, and in AUTHORIZATION the
      refusal every command outside that state's table gets. */
  function NoOpReply(p: Phase): Output
    requires !p.Ended?
  {
    if p.Transaction? then Positive([]) else Negative(NOT_DURING_AUTHORIZATION)
  }

  /** NOOP changes nothing: any number of them, each arriving whole, leave
      a live session as it was and are answered one reply each. */
  lemma {:induction false} NoOpIdempotent(env: Collaborators, s: Session, n: nat)
    requires s.buffer == [] && !s.phase.Ended?
    ensures Run(env, s, Copies(Serialize(NoOp), n)) == Transition(s, Copies(NoOpReply(s.phase), n))
  {
    if n > 0 {
      var first := Transition(s, [NoOpReply(s.phase)]);
      StepWholeCommand(env, s, NoOp);
      NoOpIdempotent(env, s, n - 1);
      RunFirst(env, s, Serialize(NoOp), Copies(Serialize(NoOp), n - 1), first);
    }
  }

  /** A whole session: greeting, USER, a PASS the store rejects, which
      leaves the session in AUTHORIZATION to try again, the right PASS,
      STAT and QUIT. */
  lemma LoginScenario(env: Collaborators, name: seq<byte>, wrong: seq<byte>, password: seq<byte>, user: Account)
    requires WellFormedArg(name) && WellFormedArg(wrong) && WellFormedArg(password)
    requires env.utf8(name).Some? && env.isAddress(env.utf8(name).value)
    requires env.utf8(wrong).Some? && env.utf8(password).Some?
    requires env.authenticate(env.utf8(name).value, env.utf8(wrong).value) == Success(None)
    requires env.authenticate(env.utf8(name).value, env.utf8(password).value) == Success(Some(user))
    ensures var chunks := [Serialize(Username(name)), Serialize(Password(wrong)), Serialize(Password(password)),
                           Serialize(Stat), Serialize(Quit)];
            var start := Start();
            var r := Run(env, start.next, chunks);
            start.out + r.out == [Positive(HELLO), Positive([]), Negative(NOT_VALID), Positive(AUTHENTICATED),
                                  Positive(STAT_BODY), Close] &&
            r.next == Session([], Ended(Closed))
  {
    var s1 := Session([], Authorization(env.utf8(name)));
    var s2 := Session([], Transaction(user));
    LoginSteps(env, name, wrong, password, user);
    RunFiveSteps(env, Start().next, Serialize(Username(name)), Serialize(Password(wrong)),
                 Serialize(Password(password)), Serialize(Stat), Serialize(Quit),
                 Transition(s1, [Positive([])]), Transition(s1, [Negative(NOT_VALID)]),
                 Transition(s2, [Positive(AUTHENTICATED)]), Transition(s2, [Positive(STAT_BODY)]),
                 Transition(Session([], Ended(Closed)), [Close]));
    SixOutputs(Positive(HELLO), Positive([]), Negative(NOT_VALID), Positive(AUTHENTICATED), Positive(STAT_BODY), Close);
  }

  /** The outputs of the scenario, one singleton after another. */
  lemma SixOutputs(a: Output, b: Output, c: Output, d: Output, e: Output, f: Output)
    ensures [a] + ([b] + ([c] + [d] + [e] + [f])) == [a, b, c, d, e, f]
  {
  }

  /** The steps of `LoginScenario`, one at a time. */
  lemma LoginSteps(env: Collaborators, name: seq<byte>, wrong: seq<byte>, password: seq<byte>, user: Account)
    requires WellFormedArg(name) && WellFormedArg(wrong) && WellFormedArg(password)
    requires env.utf8(name).Some? && env.isAddress(env.utf8(name).value)
    requires env.utf8(wrong).Some? && env.utf8(password).Some?
    requires env.authenticate(env.utf8(name).value, env.utf8(wrong).value) == Success(None)
    requires env.authenticate(env.utf8(name).value, env.utf8(password).value) == Success(Some(user))
    ensures Step(env, Start().next, Serialize(Username(name)))
            == Transition(Session([], Authorization(env.utf8(name))), [Positive([])])
    ensures Step(env, Session([], Authorization(env.utf8(name))), Serialize(Password(wrong)))
            == Transition(Session([], Authorization(env.utf8(name))), [Negative(NOT_VALID)])
    ensures Step(env, Session([], Authorization(env.utf8(name))), Serialize(Password(password)))
            == Transition(Session([], Transaction(user)), [Positive(AUTHENTICATED)])
    ensures Step(env, Session([], Transaction(user)), Serialize(Stat))
            == Transition(Session([], Transaction(user)), [Positive(STAT_BODY)])
    ensures Step(env, Session([], Transaction(user)), Serialize(Quit))
            == Transition(Session([], Ended(Closed)), [Close])
  {
    StepWholeCommand(env, Start().next, Username(name));
    StepWholeCommand(env, Session([], Authorization(env.utf8(name))), Password(wrong));
    StepWholeCommand(env, Session([], Authorization(env.utf8(name))), Password(password));
    StepWholeCommand(env, Session([], Transaction(user)), Stat);
    StepWholeCommand(env, Session([], Transaction(user)), Quit);
  }

  /** Five reads in a row. */
  lemma RunFiveSteps(env: Collaborators, s: Session, c0: seq<byte>, c1: seq<byte>, c2: seq<byte>, c3: seq<byte>,
                     c4: seq<byte>, t0: Transition, t1: Transition, t2: Transition, t3: Transition, t4: Transition)
    requires Step(env, s, c0) == t0 && Step(env, t0.next, c1) == t1 && Step(env, t1.next, c2) == t2
    requires Step(env, t2.next, c3) == t3 && Step(env, t3.next, c4) == t4
    ensures Run(env, s, [c0, c1, c2, c3, c4])
            == Transition(t4.next, t0.out + (t1.out + t2.out + t3.out + t4.out))
  {
    RunFourSteps(env, t0.next, c1, c2, c3, c4, t1, t2, t3, t4);
    assert [c0, c1, c2, c3, c4] == [c0] + [c1, c2, c3, c4];
    RunFirst(env, s, c0, [c1, c2, c3, c4], t0);
  }

  /** Four reads in a row. */
  lemma RunFourSteps(env: Collaborators, s: Session, c0: seq<byte>, c1: seq<byte>, c2: seq<byte>, c3: seq<byte>,
                     t0: Transition, t1: Transition, t2: Transition, t3: Transition)
    requires Step(env, s, c0) == t0 && Step(env, t0.next, c1) == t1
    requires Step(env, t1.next, c2) == t2 && Step(env, t2.next, c3) == t3
    ensures Run(env, s, [c0, c1, c2, c3]) == Transition(t3.next, t0.out + t1.out + t2.out + t3.out)
  {
    RunThreeSteps(env, t0.next, c1, c2, c3, t1, t2, t3);
    assert [c0, c1, c2, c3] == [c0] + [c1, c2, c3];
    RunFirst(env, s, c0, [c1, c2, c3], t0);
    AppendAssociative(t0.out, t1.out + t2.out, t3.out);
    AppendAssociative(t0.out, t1.out, t2.out);
  }

  lemma RunThreeSteps(env: Collaborators, s: Session, c0: seq<byte>, c1: seq<byte>, c2: seq<byte>,
                      t0: Transition, t1: Transition, t2: Transition)
    requires Step(env, s, c0) == t0 && Step(env, t0.next, c1) == t1 && Step(env, t1.next, c2) == t2
    ensures Run(env, s, [c0, c1, c2]) == Transition(t2.next, t0.out + t1.out + t2.out)
  {
    RunTwoSteps(env, t0.next, c1, c2, t1, t2);
    assert [c0, c1, c2] == [c0] + [c1, c2];
    RunFirst(env, s, c0, [c1, c2], t0);
    AppendAssociative(t0.out, t1.out, t2.out);
  }

  lemma RunTwoSteps(env: Collaborators, s: Session, c0: seq<byte>, c1: seq<byte>, t0: Transition, t1: Transition)
    requires Step(env, s, c0) == t0 && Step(env, t0.next, c1) == t1
    ensures Run(env, s, [c0, c1]) == Transition(t1.next, t0.out + t1.out)
  {
    RunFirst(env, t0.next, c1, [], t1);
    assert [c0, c1] == [c0] + [c1];
    RunFirst(env, s, c0, [c1], t0);
  }

  /** Running from `s` is the first step followed by the rest. */
  lemma RunFirst(env: Collaborators, s: Session, c: seq<byte>, rest: seq<seq<byte>>, first: Transition)
    requires Step(env, s, c) == first
    ensures Run(env, s, [c] + rest)
            == Transition(Run(env, first.next, rest).next, first.out + Run(env, first.next, rest).out)
  {
    assert ([c] + rest)[0] == c && ([c] + rest)[1..] == rest;
  }

  /** The fixed STAT reply travels on one line; the LIST and RETR replies
      and the capability list hold a CR LF and travel as multi-line
      responses. */
  lemma FixedRepliesFraming()
    ensures Pop3Response.Encode(Positive(STAT_BODY).response)
            == Pop3Response.OK + [SP] + STAT_BODY + CRLF
    ensures Pop3Response.ContainsCrlf(LIST_BODY)
    ensures Pop3Response.ContainsCrlf(RETRIEVE_BODY)
    ensures Pop3Response.ContainsCrlf(CAPABILITIES)
  {
    Pop3Response.NoCarriageReturn(STAT_BODY);
    assert Pop3Response.CrlfAt(LIST_BODY, 0);
    assert Pop3Response.CrlfAt(RETRIEVE_BODY, 0);
    assert Pop3Response.CrlfAt(CAPABILITIES, 0);
  }
}
