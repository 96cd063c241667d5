/** The life of one connection (src/network/connection.cpp) as a state machine
    over the completions of its reads, its timeouts and its closes, with the
    record of what it handed to the protocol. */
module Sessions {
  import opened Chunks
  import opened Fields
  import opened Frames
  import opened Words

  datatype Read = Header | Content(size: u16)

  datatype Event =
    | Authenticated
    | Ping
    | Received(opcode: byte, rest: seq<byte>)
    | Closed

  const PING: byte := 6

  /** `accepted`: the server has called `accept`, which it does at most once.
      `registered`: the connection manager holds the connection.
      `pending`: the `async_read`s that have been started and not completed. */
  datatype Session = Session(
    accepted: bool, closed: bool, receivedFirst: bool, registered: bool, pending: seq<Read>, log: seq<Event>)

  /** A connection as `createConnection` leaves it. */
  const CREATED := Session(false, false, false, true, [], [])

  /** `Connection::close` */
  function Close(s: Session): Session {
    s.(registered := false, closed := true, log := if s.closed then s.log else s.log + [Closed])
  }

  /** The end of a handler: the next read is started, unless that throws. */
  function Await(s: Session, read: Read, fault: bool): Session {
    if fault then Close(s) else s.(pending := s.pending + [read])
  }

  function Accept(s: Session, fault: bool): Session {
    Await(s.(accepted := true), Header, fault)
  }

  /** `parseHeader` on the two bytes of an outer length. */
  function OnHeader(s: Session, error: bool, size: u16, fault: bool): Session {
    if error || !HeaderAccepted(size) then Close(s) else Await(s, Content(size), fault)
  }

  /** What `Protocol::parsePacket` makes of an opened message. */
  function EventOf(message: seq<byte>): Event {
    var t := ReadByte(Reader(message, false));
    if t.0 == PING then Ping else Received(t.0, t.1.rest)
  }

  function EventsOf(messages: seq<seq<byte>>): seq<Event> {
    if messages == [] then [] else [EventOf(messages[0])] + EventsOf(messages[1..])
  }

  /** `parsePacket` on a content. `closes` tells whether the protocol or one of
      its handlers closes the connection while it has the packet. */
  function OnContent(s: Session, error: bool, c: Cipher, content: seq<byte>, closes: bool, fault: bool): Session {
    if error then Close(s)
    else if s.closed then s
    else
      var events := if s.receivedFirst then EventsOf(Open(c, content)) else [Authenticated];
      var handled := s.(receivedFirst := true, log := s.log + events);
      Await(if closes then Close(handled) else handled, Header, fault)
  }

  function Removed(s: Session, i: nat): Session
    requires i < |s.pending|
  {
    s.(pending := s.pending[..i] + s.pending[i + 1..])
  }

  /** What can happen to a connection next. The outer length, the
      content, the key in use and the handlers' behaviour are arbitrary. */
  datatype Step =
    | AcceptCall(fault: bool)
    | HeaderDone(read: nat, error: bool, size: u16, fault: bool)
    | ContentDone(read: nat, error: bool, c: Cipher, content: seq<byte>, closes: bool, fault: bool)
    | Timeout
    | CloseCall
    | Drop

  predicate Enabled(s: Session, step: Step) {
    match step
    case AcceptCall(_) => !s.accepted
    case HeaderDone(i, _, _, _) => i < |s.pending| && s.pending[i] == Header
    case ContentDone(i, error, _, content, _, _) =>
      i < |s.pending| && s.pending[i].Content? && (!error ==> |content| == s.pending[i].size)
    case _ => true
  }

  /** `Timeout` and `CloseCall` are calls of `close`; `Drop` is `closeAll`,
      which empties the manager's set and closes the socket only. */
  function Next(s: Session, step: Step): Session
    requires Enabled(s, step)
  {
    match step
    case AcceptCall(fault) => Accept(s, fault)
    case HeaderDone(i, error, size, fault) => OnHeader(Removed(s, i), error, size, fault)
    case ContentDone(i, error, c, content, closes, fault) => OnContent(Removed(s, i), error, c, content, closes, fault)
    case Timeout => Close(s)
    case CloseCall => Close(s)
    case Drop => s.(registered := false)
  }

  /** The session after `steps`, or none when one of them could not happen. */
  function Run(s: Session, steps: seq<Step>): (r: seq<Session>)
    ensures |r| <= 1
    decreases |steps|
  {
    if steps == [] then [s]
    else if !Enabled(s, steps[0]) then []
    else Run(Next(s, steps[0]), steps[1..])
  }

  predicate IsDispatch(e: Event) {
    e.Ping? || e.Received?
  }

  predicate Dispatches(es: seq<Event>, from: nat) {
    forall i | from <= i < |es| :: IsDispatch(es[i])
  }

  /** The only shape a record can have: one authentication and then dispatches,
      if a first packet came in; and a close last of all, if there was one. */
  predicate Good(s: Session) {
    var core := if s.closed && s.log != [] then s.log[..|s.log| - 1] else s.log;
    && |s.pending| <= 1
    && (!s.accepted ==> s.pending == [] && !s.receivedFirst)
    && (s.closed ==> !s.registered && s.log != [] && s.log[|s.log| - 1] == Closed)
    && if s.receivedFirst then core != [] && core[0] == Authenticated && Dispatches(core, 1) else core == []
  }

  lemma CloseKeeps(s: Session)
    requires Good(s)
    ensures Good(Close(s)) && Close(s).closed && !Close(s).registered && (s.closed ==> Close(s).log == s.log)
  {
    assert !s.closed ==> (s.log + [Closed])[..|s.log|] == s.log;
  }

  lemma DropKeeps(s: Session)
    requires Good(s)
    ensures Good(s.(registered := false))
  {
  }

  lemma NotAccepted(s: Session)
    requires Good(s) && !s.accepted
    ensures s.pending == [] && Good(s.(accepted := true))
  {
  }

  lemma AwaitKeeps(s: Session, read: Read, fault: bool)
    requires Good(s) && s.pending == [] && s.accepted
    ensures Good(Await(s, read, fault))
    ensures s.closed ==> Await(s, read, fault).closed && Await(s, read, fault).log == s.log
    ensures !s.registered ==> !Await(s, read, fault).registered
  {
    hide Dispatches;
    if fault {
      CloseKeeps(s);
    } else {
      assert s.pending + [read] == [read];
    }
  }

  lemma HeaderKeeps(s: Session, error: bool, size: u16, fault: bool)
    requires Good(s) && s.pending == [] && s.accepted
    ensures var r := OnHeader(s, error, size, fault);
            && Good(r) && (s.closed ==> r.closed && r.log == s.log)
            && (!s.registered ==> !r.registered)
  {
    CloseKeeps(s);
    AwaitKeeps(s, Content(size), fault);
  }

  lemma {:induction false} EventsDispatch(messages: seq<seq<byte>>)
    ensures Dispatches(EventsOf(messages), 0)
  {
    if messages != [] {
      EventsDispatch(messages[1..]);
    }
  }

  lemma HandledKeeps(s: Session, messages: seq<seq<byte>>)
    requires Good(s) && s.pending == [] && s.accepted && !s.closed
    ensures var events := if s.receivedFirst then EventsOf(messages) else [Authenticated];
            Good(s.(receivedFirst := true, log := s.log + events))
  {
    EventsDispatch(messages);
  }

  lemma RemovedKeeps(s: Session, i: nat)
    requires Good(s) && i < |s.pending|
    ensures Good(Removed(s, i)) && Removed(s, i) == s.(pending := []) && s.accepted
  {
  }

  lemma ContentKeeps(s: Session, error: bool, c: Cipher, content: seq<byte>, closes: bool, fault: bool)
    requires Good(s) && s.pending == [] && s.accepted
    ensures var r := OnContent(s, error, c, content, closes, fault);
            && Good(r) && (s.closed ==> r.closed && r.log == s.log)
            && (!s.registered ==> !r.registered)
  {
    if error || s.closed {
      CloseKeeps(s);
    } else {
      hide Open, EventOf;
      var events := if s.receivedFirst then EventsOf(Open(c, content)) else [Authenticated];
      var handled := s.(receivedFirst := true, log := s.log + events);
      HandledKeeps(s, Open(c, content));
      CloseKeeps(handled);
      AwaitKeeps(if closes then Close(handled) else handled, Header, fault);
    }
  }

  /** Every step keeps the invariant; nothing is added to the record of a
      closed connection, and one the manager has let go of never comes back. */
  lemma StepKeeps(s: Session, step: Step)
    requires Good(s) && Enabled(s, step)
    ensures Good(Next(s, step))
    ensures s.closed ==> Next(s, step).closed && Next(s, step).log == s.log
    ensures !s.registered ==> !Next(s, step).registered
  {
    hide Good, OnHeader, OnContent, Await, Close, Removed;
    match step
    case AcceptCall(fault) =>
      NotAccepted(s);
      AwaitKeeps(s.(accepted := true), Header, fault);
    case HeaderDone(i, error, size, fault) =>
      RemovedKeeps(s, i);
      HeaderKeeps(s.(pending := []), error, size, fault);
    case ContentDone(i, error, c, content, closes, fault) =>
      RemovedKeeps(s, i);
      ContentKeeps(s.(pending := []), error, c, content, closes, fault);
    case Drop =>
      DropKeeps(s);
    case _ =>
      CloseKeeps(s);
  }

  lemma {:induction false} RunKeeps(s: Session, steps: seq<Step>)
    requires Good(s) && Run(s, steps) != []
    ensures Good(Run(s, steps)[0])
    ensures s.closed ==> Run(s, steps)[0].closed && Run(s, steps)[0].log == s.log
    ensures !s.registered ==> !Run(s, steps)[0].registered
    decreases |steps|
  {
    if steps != [] {
      StepKeeps(s, steps[0]);
      RunKeeps(Next(s, steps[0]), steps[1..]);
    }
  }

  /** In every interleaving of acceptance, read completions, timeouts, closes
      and server shutdown, at every point of the run: at most one read is
      pending, authentication happens at most once and before any dispatch,
      nothing happens after a close, and a closed connection is not in the
      manager's set. */
  lemma SessionRuns(steps: seq<Step>)
    requires Run(CREATED, steps) != []
    ensures
      var s := Run(CREATED, steps)[0];
      && |s.pending| <= 1
      && (forall i | 0 <= i < |s.log| :: s.log[i] == Authenticated ==> i == 0)
      && (forall i | 0 <= i < |s.log| :: IsDispatch(s.log[i]) ==> s.log[0] == Authenticated)
      && (forall i | 0 <= i < |s.log| :: s.log[i] == Closed ==> i == |s.log| - 1)
      && (s.closed <==> Closed in s.log)
      && (s.closed ==> !s.registered)
  {
    RunKeeps(CREATED, steps);
    var s := Run(CREATED, steps)[0];
    var core := if s.closed then s.log[..|s.log| - 1] else s.log;
    assert s.log == core + if s.closed then [Closed] else [];
  }

  /** Once closed, always silent: whatever follows, the record stays. */
  lemma NothingAfterClose(before: seq<Step>, after: seq<Step>)
    requires Run(CREATED, before) != [] && Run(CREATED, before)[0].closed
    requires Run(Run(CREATED, before)[0], after) != []
    ensures
      var s, t := Run(CREATED, before)[0], Run(Run(CREATED, before)[0], after)[0];
      t.closed && t.log == s.log && !t.registered
  {
    RunKeeps(CREATED, before);
    RunKeeps(Run(CREATED, before)[0], after);
  }

  /** A closed connection: out of the manager's set, and its close recorded last. */
  predicate Gone(s: Session) {
    s.closed && !s.registered && s.log != [] && s.log[|s.log| - 1] == Closed
  }

  /** What ends a connection: a failed read, a length that is refused, a failure
      to start the next read, a timeout, a close. */
  lemma FailureCloses(s: Session, step: Step)
    requires Good(s) && Enabled(s, step)
    ensures
      match step
      case AcceptCall(fault) => fault ==> Gone(Next(s, step)) && Next(s, step).pending == []
      case HeaderDone(_, error, size, fault) =>
        error || size == 0 || size >= 24574 || fault ==> Gone(Next(s, step)) && Next(s, step).pending == []
      case ContentDone(_, error, _, _, closes, fault) =>
        && (error || fault || closes || s.closed ==> Gone(Next(s, step)))
        && (error || fault || s.closed ==> Next(s, step).pending == [])
      case Timeout => Gone(Next(s, step)) && Next(s, step).pending == s.pending
      case CloseCall => Gone(Next(s, step)) && Next(s, step).pending == s.pending
      case Drop => !Next(s, step).registered
  {
    hide Good, Next, Open, EventOf;
    StepKeeps(s, step);
    NextCloses(s, step);
    if Next(s, step).closed {
      GoodClosed(Next(s, step));
    }
  }

  lemma GoodClosed(s: Session)
    requires Good(s) && s.closed
    ensures Gone(s)
  {
  }

  lemma NextCloses(s: Session, step: Step)
    requires Good(s) && Enabled(s, step)
    ensures
      match step
      case AcceptCall(fault) => fault ==> Next(s, step).closed && Next(s, step).pending == []
      case HeaderDone(_, error, size, fault) =>
        error || size == 0 || size >= 24574 || fault ==> Next(s, step).closed && Next(s, step).pending == []
      case ContentDone(_, error, _, _, closes, fault) =>
        && (error || fault || closes || s.closed ==> Next(s, step).closed)
        && (error || fault || s.closed ==> Next(s, step).pending == [])
      case Drop => !Next(s, step).registered
      case _ => Next(s, step).closed && Next(s, step).pending == s.pending
  {
    hide Open, EventOf;
  }

  /** And what goes on: the next read is the one pending, and only a content adds
      to the record. */
  lemma SuccessGoesOn(s: Session, step: Step)
    requires Good(s) && Enabled(s, step)
    ensures
      var t := Next(s, step);
      match step
      case AcceptCall(fault) => !fault ==> t == s.(accepted := true, pending := [Header])
      case HeaderDone(_, error, size, fault) =>
        !error && 0 < size < 24574 && !fault ==> t == s.(pending := [Content(size)])
      case ContentDone(_, error, c, content, closes, fault) =>
        !error && !fault && !closes && !s.closed ==>
          var events := if s.receivedFirst then EventsOf(Open(c, content)) else [Authenticated];
          t == s.(receivedFirst := true, pending := [Header], log := s.log + events)
      case Drop => t == s.(registered := false)
      case _ => true
  {
    hide Open, EventOf;
  }

  /** What a message is dispatched as: by its first byte, 0 if there is none. */
  lemma EventOfCases(message: seq<byte>)
    ensures message == [] ==> EventOf(message) == Received(0, [])
    ensures message != [] && message[0] == 6 ==> EventOf(message) == Ping
    ensures message != [] && message[0] != 6 ==> EventOf(message) == Received(message[0], message[1..])
  {
  }

  lemma EventsInOrder(messages: seq<seq<byte>>, i: nat)
    requires i < |messages|
    ensures |EventsOf(messages)| == |messages| && EventsOf(messages)[i] == EventOf(messages[i])
    decreases |messages|
  {
    hide EventOf;
    if i > 0 {
      EventsInOrder(messages[1..], i - 1);
    } else if |messages| > 1 {
      EventsInOrder(messages[1..], 0);
    }
  }
}
