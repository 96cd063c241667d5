/** `Connection` (src/network/connection.cpp) with its reused message buffer,
    and the receive side of the protocol (src/utils/xtea.cpp). Each handler is
    the completion of one read; it refines the step of the same name of the
    state machine in `Sessions`, whatever an earlier packet left in the buffer. */
module Connections {
  import opened Adler
  import opened Chunks
  import opened Fields
  import opened Frames
  import Logins
  import opened NetworkMessages
  import opened Sessions
  import opened Words
  import opened Xtea

  /** The checksum part of `parsePacket`: the cursor moves behind the four
      checksum bytes, and back again when they do not match. When no byte
      follows them, they match if they are 0. */
  method CheckChecksum(msg: NetworkMessage)
    requires msg.Valid() && msg.position == 2 && 2 < msg.length < FRAME_LIMIT + 2
    modifies msg
    ensures msg.length == old(msg.length) && msg.overrun == old(msg.overrun) && (msg.position == 2 || msg.position == 6)
    ensures msg.position == 6
            <==> Load32(msg.buffer[2..6]) == if msg.length > 6 then Checksum(msg.buffer[6..msg.length]) else 0
  {
    var len := msg.length - msg.position - 4;
    var checksum: u32 := 0;
    if len > 0 {
      checksum := AdlerChecksum(msg.buffer[msg.position + 4..msg.position + 4 + len]);
    }
    var recvChecksum := msg.Get32();
    if recvChecksum != checksum {
      msg.SkipBytes(-4);
    }
  }

  /** `XTEA::decrypt` on a message that was received: what can be read
      afterwards is determined by the received bytes alone. */
  method DecryptXtea(k: Key, msg: NetworkMessage) returns (ok: bool)
    requires msg.Valid() && (msg.position == 2 || msg.position == 6) && 2 < msg.length < FRAME_LIMIT + 2
    modifies msg, msg.buffer
    ensures
      var messages := OpenAt(XteaCipher(k), old(msg.buffer[2..msg.length]), old(msg.position) - 2);
      if ok then msg.Reading() && messages == [msg.Unread().rest] else messages == []
  {
    hide XteaCipher, MapWindow, WholeBlocks, Load16, OpenAt;
    ghost var content, at := msg.buffer[2..msg.length], msg.position - 2;
    ghost var b, f := msg.buffer[..], XteaCipher(k).decrypt;
    if (msg.length - 6) % 8 != 0 {
      OpenOddSize(XteaCipher(k), content, at);
      return false;
    }
    var messageLength := msg.length - 6;
    WholeBlocksOf(messageLength);
    DecryptBuffer(k, msg.buffer, msg.position, messageLength);
    ghost var w := msg.buffer[..];
    ok := TakeInner(msg);
    if messageLength == 0 {
      OpenOddSize(XteaCipher(k), content, at);
    } else {
      OpenReceived(XteaCipher(k), b, at, messageLength);
    }
  }

  lemma OpenOddSize(c: Cipher, content: seq<byte>, at: nat)
    requires (at == 0 || at == 4) && ((|content| - 4) % 8 != 0 || |content| <= 4)
    ensures OpenAt(c, content, at) == []
  {
  }

  /** Opening the content, in terms of the buffer it was decrypted in. */
  lemma OpenReceived(c: Cipher, b: seq<byte>, at: nat, n: nat)
    requires |b| == MAX_SIZE && (at == 0 || at == 4) && n % 8 == 0 && 8 <= n < FRAME_LIMIT
    ensures
      var w := MapWindow(c.decrypt, b, at + 2, n);
      var inner := Load16(w[at + 2..at + 4]);
      OpenAt(c, b[2..6 + n], at) == if inner > n - 2 then [] else [w[at + 4..inner + 8]]
  {
    hide MapWindow, Load16;
    var w := MapWindow(c.decrypt, b, at + 2, n);
    ReceivedWindow(c.decrypt, b, at, n);
    SliceOfSlice(w, 2, 6 + n, at, at + 2);
    var inner := Load16(w[at + 2..at + 4]);
    if inner <= n - 2 {
      SliceOfSlice(w, 2, 6 + n, at + 2, inner + 6);
    }
  }

  /** The end of `XTEA::decrypt`: the inner length becomes the message's. */
  method TakeInner(msg: NetworkMessage) returns (ok: bool)
    requires msg.Valid() && (msg.position == 2 || msg.position == 6) && 6 <= msg.length < FRAME_LIMIT + 2
    modifies msg
    ensures var p := old(msg.position);
            var inner := Load16(msg.buffer[p..p + 2]);
            && (ok <==> inner <= old(msg.length) - 8)
            && (ok ==> msg.length == inner && msg.Reading() && msg.Unread().rest == msg.buffer[p + 2..inner + 8])
  {
    var innerLength := msg.Get16();
    if innerLength > msg.length - 8 {
      return false;
    }
    msg.length := innerLength;
    ok := true;
  }

  lemma WholeBlocksOf(n: nat)
    requires n % 8 == 0
    ensures WholeBlocks(n) == n
  {
  }

  /** Decrypting in the buffer is decrypting the content. */
  lemma ReceivedWindow(f: Chunk -> Chunk, b: seq<byte>, at: nat, n: nat)
    requires |b| == MAX_SIZE && (at == 0 || at == 4) && n % 8 == 0 && n < FRAME_LIMIT
    ensures MapWindow(f, b, at + 2, n)[2..6 + n] == MapWindow(f, b[2..6 + n], at, n)
  {
    SliceOfSlice(b, 2, 6 + n, at, at + n);
    var r := MapChunks(f, b[at + 2..at + 2 + n]);
    SliceOfSplice(b, at + 2, r, 2, 6 + n);
  }

  /** What a packet meets with: the inverse of the server's RSA key, the least
      version, and whether the look-up of the account or a handler closes the
      connection. */
  datatype Handling = Handling(rsa: Logins.Window -> Logins.Window, versionMin: u16, closes: bool)

  class Connection {
    const manager: ConnectionManager
    const id: nat
    const msg: NetworkMessage
    var accepted: bool
    var closed: bool
    var receivedFirst: bool
    var pending: seq<Sessions.Read>
    var key: Key
    var log: seq<Event>

    ghost function State(): Session
      reads this, manager
    {
      Session(accepted, closed, receivedFirst, this in manager.connections, pending, log)
    }

    /** Nothing but this connection can have left the manager's set. */
    twostate predicate OthersStay()
      reads manager
    {
      manager.connections - {this} == old(manager.connections) - {this}
    }

    /** While a content is being read, the message already has its length. */
    ghost predicate Valid()
      reads this, msg
    {
      && msg.Valid() && |pending| <= 1 && (!receivedFirst ==> !msg.overrun)
      && forall i | 0 <= i < |pending| && pending[i].Content? ::
           HeaderAccepted(pending[i].size) && msg.length == pending[i].size + 2 && msg.position == 2
    }

    constructor (manager: ConnectionManager, id: nat)
      ensures this.manager == manager && this.id == id && Valid() && fresh(msg) && fresh(msg.buffer)
      ensures !accepted && !closed && !receivedFirst && pending == [] && log == []
    {
      this.manager, this.id := manager, id;
      msg := new NetworkMessage();
      accepted, closed, receivedFirst := false, false, false;
      pending, log := [], [];
      key := [0, 0, 0, 0];
    }

    method Close()
      modifies this, manager`connections
      ensures State() == Sessions.Close(old(State())) && key == old(key) && OthersStay()
    {
      manager.ReleaseConnection(this);
      if closed {
        return;
      }
      closed := true;
      log := log + [Closed];
    }

    method Await(read: Sessions.Read, fault: bool)
      modifies this, manager`connections
      ensures State() == Sessions.Await(old(State()), read, fault) && key == old(key) && OthersStay()
    {
      if fault {
        Close();
      } else {
        pending := pending + [read];
      }
    }

    method Accept(fault: bool)
      requires Valid() && !accepted && pending == []
      modifies this, manager`connections
      ensures Valid() && State() == Sessions.Accept(old(State()), fault) && OthersStay()
    {
      accepted := true;
      Await(Header, fault);
    }

    /** The completion of the read of an outer length: `parseHeader`. */
    method ParseHeader(error: bool, bytes: seq<byte>, fault: bool)
      requires Valid() && pending == [Header] && |bytes| == 2
      modifies this, msg, msg.buffer, manager`connections
      ensures Valid() && key == old(key) && OthersStay()
      ensures State() == OnHeader(Removed(old(State()), 0), error, Load16(bytes), fault)
    {
      pending := [];
      if error {
        Close();
        return;
      }
      Memcpy(msg.buffer, 0, bytes);
      var size := Load16(msg.buffer[0..2]);
      assert msg.buffer[0..2] == bytes;
      if size == 0 || size >= FRAME_LIMIT {
        Close();
        return;
      }
      msg.length := size + 2;
      msg.position := 2;
      Await(Content(size), fault);
    }

    /** What the first packet comes to, when it is this content. */
    ghost function FirstAttempt(content: seq<byte>, handling: Handling): Logins.Attempt
      requires Valid() && |content| + 2 + RESERVED <= MAX_SIZE
      reads this, msg, msg.buffer
    {
      var behind := msg.buffer[|content| + 2..|content| + 2 + RESERVED];
      Logins.FirstPacket(content, behind, handling.rsa, handling.versionMin)
    }

    /** The completion of the read of a content: `parsePacket`. Handlers may
        leave the message's cursor anywhere. Only the first packet sets a key. */
    method ParsePacket(error: bool, content: seq<byte>, handling: Handling, fault: bool)
      requires Valid() && |pending| == 1 && pending[0].Content? && |content| == pending[0].size
      modifies this, msg, msg.buffer, manager`connections
      ensures Valid() && OthersStay()
      ensures
        var attempt := old(FirstAttempt(content, handling));
        var closes := handling.closes || (!old(receivedFirst) && !attempt.Credentials?);
        && State() == OnContent(Removed(old(State()), 0), error, XteaCipher(old(key)), content, closes, fault)
        && key == if error || old(closed) || old(receivedFirst) then old(key) else Logins.KeyAfter(attempt, old(key))
    {
      hide XteaCipher, Open, EventOf, EventsOf, Logins.FirstPacket, HeaderAccepted;
      pending := [];
      if error {
        Close();
        return;
      } else if closed {
        return;
      }
      SmallContent(|content|);
      var closes := TakePacket(content, handling);
      msg.position, msg.overrun := *, *;
      if closes {
        Close();
      }
      Await(Header, fault);
    }

    lemma SmallContent(n: u16)
      requires HeaderAccepted(n)
      ensures 0 < n < FRAME_LIMIT
    {
    }

    /** What is done with a content: the first authenticates, the others are dispatched. */
    method TakePacket(content: seq<byte>, handling: Handling) returns (closes: bool)
      requires Valid() && 0 < |content| < FRAME_LIMIT && pending == []
      requires msg.length == |content| + 2 && msg.position == 2
      modifies `log, `key, `receivedFirst, msg, msg.buffer
      ensures receivedFirst
      ensures
        var attempt := old(FirstAttempt(content, handling));
        && closes == (handling.closes || (!old(receivedFirst) && !attempt.Credentials?))
        && key == (if old(receivedFirst) then old(key) else Logins.KeyAfter(attempt, old(key)))
        && log == old(log)
                  + if old(receivedFirst) then EventsOf(Open(XteaCipher(old(key)), content)) else [Authenticated]
    {
      hide XteaCipher, Open, EventOf, EventsOf, Logins.FirstPacket, Logins.KeyAfter;
      ghost var behind := msg.buffer[|content| + 2..|content| + 2 + RESERVED];
      Memcpy(msg.buffer, 2, content);
      assert msg.buffer[2..msg.length] == content;
      assert msg.buffer[|content| + 2..|content| + 2 + RESERVED] == behind;
      closes := handling.closes;
      if receivedFirst {
        Dispatch(content);
      } else {
        var attempt := Authenticate(content, handling);
        receivedFirst := true;
        log := log + [Authenticated];
        key := Logins.KeyAfter(attempt, key);
        closes := closes || !attempt.Credentials?;
      }
    }

    /** Checksum, the byte that is skipped, and `Protocol::authenticate`. */
    method Authenticate(ghost content: seq<byte>, handling: Handling) returns (attempt: Logins.Attempt)
      requires msg.Valid() && 0 < |content| < FRAME_LIMIT && !msg.overrun
      requires msg.length == |content| + 2 && msg.position == 2 && msg.buffer[2..msg.length] == content
      modifies msg, msg.buffer
      ensures attempt == Logins.FirstPacket(
                content, old(msg.buffer[|content| + 2..|content| + 2 + RESERVED]), handling.rsa, handling.versionMin)
    {
      hide Checksum, Load32, Logins.Attempted;
      ghost var b, n: int := msg.buffer[..], msg.length;
      ghost var behind := msg.buffer[n..n + RESERVED];
      CheckChecksum(msg);
      if |content| > 4 {
        assert msg.buffer[2..6] == content[..4] && msg.buffer[6..msg.length] == content[4..];
      }
      msg.SkipBytes(1);
      ghost var at: int := msg.position - 3;
      attempt := Logins.Authenticate(msg, handling.rsa, handling.versionMin);
      assert b[2..n + RESERVED] == content + behind == ([0, 0] + content + behind)[2..n + RESERVED];
      Logins.AttemptedWithin(b, [0, 0] + content + behind, at + 3, n, handling.rsa, handling.versionMin);
      if |content| <= 4 {
        TooShort(b, 3, n, handling);
        TooShort([0, 0] + content + behind, 3, n, handling);
        TooShort([0, 0] + content + behind, 7, n, handling);
      }
    }

    lemma TooShort(b: seq<byte>, position: nat, length: nat, handling: Handling)
      requires length + RESERVED <= |b| && length < position + 149
      ensures Logins.Attempted(b, position, length, false, handling.rsa, handling.versionMin) == Logins.Refused
    {
    }

    /** Checksum, decryption and `Protocol::parsePacket`. */
    method Dispatch(ghost content: seq<byte>)
      requires Valid() && 0 < |content| < FRAME_LIMIT && pending == []
      requires msg.length == |content| + 2 && msg.position == 2 && msg.buffer[2..msg.length] == content
      modifies `log, msg, msg.buffer
      ensures log == old(log) + EventsOf(Open(XteaCipher(key), content))
    {
      hide XteaCipher, OpenAt, Checksum, Load32;
      CheckChecksum(msg);
      if |content| > 4 {
        assert msg.buffer[2..6] == content[..4] && msg.buffer[6..msg.length] == content[4..];
      } else {
        OpenOddSize(XteaCipher(key), content, 0);
        OpenOddSize(XteaCipher(key), content, 4);
      }
      var ok := DecryptXtea(key, msg);
      if !ok {
        return;
      }
      ghost var message := msg.Unread().rest;
      var opcode := msg.GetByte();
      log := log + [if opcode == PING then Ping else Received(opcode, msg.buffer[msg.position..msg.length + RESERVED])];
    }
  }

  ghost predicate Numbered(all: seq<Connection>, manager: ConnectionManager) {
    forall i | 0 <= i < |all| :: all[i].manager == manager && all[i].id == i + 1
  }

  ghost predicate Separate(all: seq<Connection>) {
    forall i, j | 0 <= i < j < |all| ::
      all[i] != all[j] && all[i].msg != all[j].msg && all[i].msg.buffer != all[j].msg.buffer
  }

  /** `ConnectionManager` (src/network/connectionmanager.cpp): the numbers and
      the set of live connections. */
  class ConnectionManager {
    /** `CONNECTION_ID_GENERATOR` */
    var generator: nat
    var connections: set<Connection>
    /** Every connection ever made, the oldest first. */
    ghost var all: seq<Connection>

    /** Connections have distinct numbers, those of the order of creation, and
        share nothing; each is in a state that can be reached; and none of
        another manager is in the set. */
    ghost predicate Valid()
      reads this, all, set c | c in all :: c.msg
    {
      && generator == |all| && Numbered(all, this) && Separate(all)
      && (forall c | c in connections :: c in all)
      && forall i | 0 <= i < |all| :: all[i].Valid() && Good(all[i].State())
    }

    constructor ()
      ensures Valid() && all == [] && connections == {}
    {
      generator, connections, all := 0, {}, [];
    }

    /** A new number is above all numbers before it. */
    method CreateConnection() returns (connection: Connection)
      requires Valid()
      modifies this
      ensures Valid() && fresh(connection) && connection.State() == CREATED
      ensures all == old(all) + [connection] && connections == old(connections) + {connection}
      ensures forall c | c in old(all) :: c.id < connection.id
    {
      hide Good;
      CreatedGood();
      generator := generator + 1;
      connection := new Connection(this, generator);
      connections := connections + {connection};
      all := all + [connection];
    }

    method ReleaseConnection(connection: Connection)
      modifies this`connections
      ensures connections == old(connections) - {connection}
    {
      connections := connections - {connection};
    }

    /** `Connection::accept`, called by the server for a new connection. */
    method OnAccept(connection: Connection, fault: bool)
      requires Valid() && connection in all && !connection.accepted
      modifies connection, this`connections
      ensures Valid() && all == old(all) && connections <= old(connections)
      ensures connections - {connection} == old(connections) - {connection}
      ensures connection.State() == Next(old(connection.State()), AcceptCall(fault))
      ensures fault ==> Gone(connection.State()) && connection.pending == []
      ensures !fault ==> connection.State() == old(connection.State()).(accepted := true, pending := [Header])
    {
      hide Good, Next, Accept, Separate, Enabled, Gone;
      OpensWith(connection.State(), fault);
      StepKeeps(connection.State(), AcceptCall(fault));
      FailureCloses(connection.State(), AcceptCall(fault));
      SuccessGoesOn(connection.State(), AcceptCall(fault));
      ghost var before := connections;
      connection.Accept(fault);
      OneLeft(before, connections, connection);
    }

    /** The completion of the read of an outer length. */
    method OnParseHeader(connection: Connection, error: bool, bytes: seq<byte>, fault: bool)
      requires Valid() && connection in all && connection.pending == [Header] && |bytes| == 2
      modifies connection, connection.msg, connection.msg.buffer, this`connections
      ensures Valid() && all == old(all) && connections <= old(connections)
      ensures connections - {connection} == old(connections) - {connection}
      ensures connection.State() == Next(old(connection.State()), HeaderDone(0, error, Load16(bytes), fault))
      ensures
        var size := Load16(bytes);
        if error || size == 0 || size >= 24574 || fault then Gone(connection.State()) && connection.pending == []
        else connection.State() == old(connection.State()).(pending := [Content(size)])
    {
      hide Good, Next, OnHeader, Removed, Load16, Gone;
      ghost var step := HeaderDone(0, error, Load16(bytes), fault);
      HeaderNext(connection.State(), step);
      StepKeeps(connection.State(), step);
      FailureCloses(connection.State(), step);
      SuccessGoesOn(connection.State(), step);
      ghost var before := connections;
      connection.ParseHeader(error, bytes, fault);
      OneLeft(before, connections, connection);
    }

    /** The completion of the read of a content. */
    method OnParsePacket(connection: Connection, error: bool, content: seq<byte>, handling: Handling, fault: bool)
      requires Valid() && connection in all
      requires |connection.pending| == 1 && connection.pending[0].Content? && |content| == connection.pending[0].size
      modifies connection, connection.msg, connection.msg.buffer, this`connections
      ensures Valid() && all == old(all) && connections <= old(connections)
      ensures connections - {connection} == old(connections) - {connection}
      ensures
        var attempt := old(connection.FirstAttempt(content, handling));
        var closes := handling.closes || (!old(connection.receivedFirst) && !attempt.Credentials?);
        var step := ContentDone(0, error, XteaCipher(old(connection.key)), content, closes, fault);
        && connection.State() == Next(old(connection.State()), step)
        && (error || fault || closes || old(connection.closed) ==> Gone(connection.State()))
        && (error || fault || old(connection.closed) ==> connection.pending == [])
        && (!error && !fault && !closes && !old(connection.closed) ==>
              var events := if old(connection.receivedFirst) then EventsOf(Open(step.c, content)) else [Authenticated];
              connection.State() == old(connection.State()).(
                receivedFirst := true, pending := [Header], log := old(connection.log) + events))
    {
      hide Good, Next, OnContent, Removed, XteaCipher, Connection.FirstAttempt, Gone, EventsOf, Open;
      ghost var attempt := connection.FirstAttempt(content, handling);
      ghost var closes := handling.closes || (!connection.receivedFirst && !attempt.Credentials?);
      ghost var step := ContentDone(0, error, XteaCipher(connection.key), content, closes, fault);
      ContentNext(connection.State(), step);
      StepKeeps(connection.State(), step);
      FailureCloses(connection.State(), step);
      SuccessGoesOn(connection.State(), step);
      ghost var before := connections;
      connection.ParsePacket(error, content, handling, fault);
      OneLeft(before, connections, connection);
    }

    /** A timeout, or a handler that closes the connection. */
    method OnClose(connection: Connection)
      requires Valid() && connection in all
      modifies connection, this`connections
      ensures Valid() && all == old(all) && connections == old(connections) - {connection}
      ensures connection.State() == Next(old(connection.State()), Timeout) && Gone(connection.State())
    {
      hide Good, Next;
      CloseNext(connection.State());
      StepKeeps(connection.State(), Timeout);
      FailureCloses(connection.State(), Timeout);
      ghost var before := connections;
      connection.Close();
      OneLeft(before, connections, connection);
      assert connection !in connections;
    }

    /** All sockets are closed and the set is empty afterwards. */
    method CloseAll()
      requires Valid()
      modifies this`connections
      ensures Valid() && connections == {} && all == old(all)
      ensures forall i | 0 <= i < |all| :: all[i].State() == old(all[i].State()).(registered := false)
    {
      hide Good;
      forall i | 0 <= i < |all| ensures Good(all[i].State().(registered := false)) {
        DropKeeps(all[i].State());
      }
      connections := {};
    }

    lemma ClosedIsGone(connection: Connection)
      requires Valid() && connection in all && connection.closed
      ensures connection !in connections
    {
      assert Good(connection.State());
    }

    /** The connection whose protocol is returned, if there is one. A connection
        has its protocol from the time it is accepted. */
    method GetProtocolById(id: nat) returns (owner: Connection?)
      requires Valid()
      ensures owner != null ==> owner in connections && owner.id == id && owner.accepted
      ensures owner == null ==> forall c | c in connections && c.id == id :: !c.accepted
    {
      owner := null;
      var todo := connections;
      while todo != {}
        invariant todo <= connections && forall c | c in connections - todo :: c.id != id
        decreases todo
      {
        var connection :| connection in todo;
        if connection.id == id {
          SameId(connection);
          return if connection.accepted then connection else null;
        }
        todo := todo - {connection};
      }
    }

    /** A number belongs to one connection. */
    lemma SameId(connection: Connection)
      requires Valid() && connection in connections
      ensures forall c | c in all && c.id == connection.id :: c == connection
    {
    }
  }

  lemma HeaderNext(s: Session, step: Step)
    requires step.HeaderDone? && step.read == 0 && s.pending == [Header]
    ensures Enabled(s, step) && Next(s, step) == OnHeader(Removed(s, 0), step.error, step.size, step.fault)
  {
  }

  lemma ContentNext(s: Session, step: Step)
    requires step.ContentDone? && step.read == 0 && |s.pending| == 1 && s.pending[0].Content?
    requires |step.content| == s.pending[0].size
    ensures Enabled(s, step)
    ensures Next(s, step) == OnContent(Removed(s, 0), step.error, step.c, step.content, step.closes, step.fault)
  {
  }

  lemma CloseNext(s: Session)
    ensures Enabled(s, Timeout) && Next(s, Timeout) == Sessions.Close(s)
  {
  }

  lemma OneLeft(before: set<Connection>, after: set<Connection>, connection: Connection)
    requires after - {connection} == before - {connection}
    ensures forall c | c != connection :: c in after <==> c in before
  {
    assert forall c | c != connection :: c in after <==> c in after - {connection};
    assert forall c | c != connection :: c in before <==> c in before - {connection};
  }

  lemma OpensWith(s: Session, fault: bool)
    requires Good(s) && !s.accepted
    ensures s.pending == [] && Enabled(s, AcceptCall(fault)) && Next(s, AcceptCall(fault)) == Sessions.Accept(s, fault)
  {
  }

  lemma CreatedGood()
    ensures Good(CREATED)
  {
  }
}
