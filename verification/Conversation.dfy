/** A whole conversation: a client logs in with a key of its choice and then
    sends messages under it, and the server's connection takes them in. */
module Conversations {
  import opened Chunks
  import opened Connections
  import opened Fields
  import opened Frames
  import Logins
  import opened OutputMessages
  import opened Sessions
  import opened Wire
  import opened Words
  import opened Xtea

  /** No two messages share anything. */
  ghost predicate Apart(outs: seq<OutputMessage>) {
    forall i, j | 0 <= i < j < |outs| ::
      outs[i] != outs[j] && outs[i].msg != outs[j].msg && outs[i].msg.buffer != outs[j].msg.buffer
  }

  ghost predicate AllUnsent(outs: seq<OutputMessage>)
    reads outs, (set o | o in outs :: o.msg)
  {
    forall i | 0 <= i < |outs| :: outs[i].Unsent()
  }

  ghost function BufferedAll(outs: seq<OutputMessage>): seq<Unsent>
    requires AllUnsent(outs)
    reads outs, (set o | o in outs :: o.msg), (set o | o in outs :: o.msg.buffer)
  {
    seq(|outs|, i requires 0 <= i < |outs| reads outs, (set o | o in outs :: o.msg), (set o | o in outs :: o.msg.buffer)
                requires outs[i].Unsent() => outs[i].Buffered())
  }

  /** The messages are encrypted and put on the wire one after the other. */
  method SendMessages(k: Key, outs: seq<OutputMessage>) returns (stream: seq<byte>)
    requires AllUnsent(outs) && Apart(outs)
    modifies outs, (set o | o in outs :: o.msg), (set o | o in outs :: o.msg.buffer)
    ensures stream == SendAll(XteaCipher(k), old(BufferedAll(outs)))
  {
    hide XteaCipher, SendAll, Frame, Still, AllUnsent, BufferedAll;
    ghost var c, ms := XteaCipher(k), BufferedAll(outs);
    AllStill(outs);
    stream := [];
    assert [] + SendAll(c, ms[0..]) == SendAll(c, ms) by {
      assert ms[0..] == ms;
    }
    for i := 0 to |outs|
      invariant forall j | i <= j < |outs| :: Still(outs[j], ms[j])
      invariant stream + SendAll(c, ms[i..]) == SendAll(c, ms)
    {
      SendFirst(c, ms[i..]);
      assert ms[i..][1..] == ms[i + 1..];
      var sent := SendOne(k, outs[i], ms[i]);
      Regroup(stream, sent, SendAll(c, ms[i + 1..]));
      stream := stream + sent;
    }
    SendNothing(c);
    assert ms[|outs|..] == [];
  }

  /** The message is as it was to be sent. */
  ghost predicate Still(out: OutputMessage, m: Unsent)
    reads out, out.msg, out.msg.buffer
  {
    out.Unsent() && out.Buffered() == m
  }

  lemma Regroup(a: seq<byte>, b: seq<byte>, c: seq<byte>)
    ensures a + (b + c) == a + b + c
  {
  }

  lemma AllStill(outs: seq<OutputMessage>)
    requires AllUnsent(outs)
    ensures |BufferedAll(outs)| == |outs|
    ensures forall i | 0 <= i < |outs| :: Still(outs[i], BufferedAll(outs)[i])
  {
  }

  method SendOne(k: Key, out: OutputMessage, ghost m: Unsent) returns (sent: seq<byte>)
    requires Still(out, m)
    modifies out, out.msg, out.msg.buffer
    ensures sent == Frame(XteaCipher(k), m.body, m.spill)
  {
    hide XteaCipher, Frame;
    EncryptMessage(k, out);
    sent := out.msg.buffer[out.outputBufferStart..out.outputBufferStart + out.msg.length];
  }

  lemma SendFirst(c: Cipher, ms: seq<Unsent>)
    requires ms != []
    ensures SendAll(c, ms) == Frame(c, ms[0].body, ms[0].spill) + SendAll(c, ms[1..])
  {
  }

  lemma SendNothing(c: Cipher)
    ensures SendAll(c, []) == []
  {
  }

  /** The first frame comes in, and its content logs in. */
  method ReceiveFirst(conn: Connection, content: seq<byte>, handling: Handling, ghost attempt: Logins.Attempt)
    requires conn.Valid() && conn.pending == [Header] && !conn.receivedFirst && !conn.closed
    requires |content| < 0x1_0000 && HeaderAccepted(|content|) && !handling.closes
    requires attempt.Credentials?
    requires forall behind | |behind| == RESERVED ::
               Logins.FirstPacket(content, behind, handling.rsa, handling.versionMin) == attempt
    modifies conn, conn.msg, conn.msg.buffer, conn.manager`connections
    ensures Waiting(conn) && conn.key == attempt.key && conn.log == old(conn.log) + [Authenticated]
  {
    hide XteaCipher, Load16, Store16, Logins.FirstPacket;
    LoadStore16(|content|);
    conn.ParseHeader(false, Store16(|content|), false);
    assert conn.pending == conn.State().pending == [Content(|content|)];
    conn.ParsePacket(false, content, handling, false);
    assert conn.pending == conn.State().pending && conn.log == conn.State().log;
  }

  /** What the client sent under a key, the connection takes in under the same. */
  method Exchange(conn: Connection, outs: seq<OutputMessage>)
    requires Waiting(conn) && AllUnsent(outs) && Apart(outs)
    requires forall o | o in outs :: o.msg != conn.msg && o.msg.buffer != conn.msg.buffer
    modifies conn, conn.msg, conn.msg.buffer, conn.manager`connections
    modifies outs, (set o | o in outs :: o.msg), (set o | o in outs :: o.msg.buffer)
    ensures Waiting(conn) && conn.key == old(conn.key)
    ensures conn.log == old(conn.log) + EventsOf(Arriving(old(BufferedAll(outs))))
  {
    hide XteaCipher, EventsOf, Arriving, SendAll, Refused, Deliveries;
    ghost var ms := BufferedAll(outs);
    var stream := SendMessages(conn.key, outs);
    WireDelivers(conn.key, ms);
    ReceiveStream(conn, stream);
  }

  /** A message as the modules see it: an opcode and fields. */
  datatype Packet = Packet(opcode: byte, fields: seq<Field>)

  /** `m` was written as `p`: no write was refused, and it is not too long. */
  predicate WrittenAs(m: Unsent, p: Packet) {
    && p.opcode != PING && AllAccepted([], [U8(p.opcode)] + p.fields)
    && m.body == WriteAll([], [U8(p.opcode)] + p.fields) && |m.body| <= LONGEST_SENDABLE
  }

  predicate AllWrittenAs(ms: seq<Unsent>, ps: seq<Packet>) {
    |ms| == |ps| && forall i | 0 <= i < |ms| :: WrittenAs(ms[i], ps[i])
  }

  /** `e` is the dispatch of `p`, and the matching reads get its fields. */
  predicate ReadsAs(e: Event, p: Packet) {
    && e.Received? && e.opcode == p.opcode
    && ReadAll(Reader(e.rest, false), Kinds(p.fields)) == (p.fields, Reader([], false))
  }

  predicate AllReadAs(es: seq<Event>, ps: seq<Packet>) {
    |es| == |ps| && forall i | 0 <= i < |es| :: ReadsAs(es[i], ps[i])
  }

  /** The opcode is the first byte of what is written, and the fields are read
      back from the rest. */
  lemma PacketRead(m: Unsent, p: Packet)
    requires WrittenAs(m, p)
    ensures ReadsAs(EventOf(m.body), p)
  {
    hide Fields.Read, Field.Bytes, CanHold;
    var fs := [U8(p.opcode)] + p.fields;
    WrittenIsRead([], fs, []);
    assert m.body[0..] + [] == m.body;
    assert Kinds(fs) == [Byte] + Kinds(p.fields) by {
      assert fs[1..] == p.fields;
    }
    ReadOne(Reader(m.body, false), Byte, Kinds(p.fields));
    var first := Fields.Read(Reader(m.body, false), Byte);
    var rest := ReadAll(first.1, Kinds(p.fields));
    assert ([first.0] + rest.0)[0] == U8(p.opcode) && ([first.0] + rest.0)[1..] == p.fields;
    FirstByte(Reader(m.body, false), p.opcode);
    if first.1.overrun {
      OverrunStays(first.1, Kinds(p.fields));
    }
  }

  lemma FirstByte(r: Reader, b: byte)
    requires Fields.Read(r, Byte).0 == U8(b)
    ensures ReadByte(r) == (b, Fields.Read(r, Byte).1)
  {
  }

  lemma {:induction false} PacketsRead(ms: seq<Unsent>, ps: seq<Packet>)
    requires AllWrittenAs(ms, ps)
    ensures AllReadAs(EventsOf(Arriving(ms)), ps)
    decreases |ms|
  {
    hide WrittenAs, ReadsAs, EventOf;
    if ms != [] {
      PacketRead(ms[0], ps[0]);
      NotTooLong(ms[0], ps[0]);
      PacketsRead(ms[1..], ps[1..]);
      assert ([ms[0].body] + Arriving(ms[1..]))[1..] == Arriving(ms[1..]);
    }
  }

  lemma NotTooLong(m: Unsent, p: Packet)
    requires WrittenAs(m, p)
    ensures |m.body| <= LONGEST_SENDABLE
  {
  }

  /** A client logs in with the key that it wrote into its first packet and then
      sends messages under that key: the connection has that key, records one
      authentication, and then exactly the messages, in order, but for those of
      the length that is dropped. Messages that were written as opcodes and fields
      are read back as the same opcodes and fields. */
  method Converse(
      conn: Connection, rsa: Logins.Window -> Logins.Window, versionMin: u16,
      number: byte, system: seq<byte>, version: u16, skipped: seq<byte>, window: Logins.Window,
      ghost key: Key, ghost email: seq<byte>, ghost password: seq<byte>, ghost filler: seq<byte>,
      ghost packets: seq<Packet>, outs: seq<OutputMessage>)
    requires conn.Valid() && conn.State() == Sessions.Accept(CREATED, false)
    requires |system| == 2 && |skipped| == 17 && version >= versionMin && email != [] && password != []
    requires AllAccepted([], Logins.LoginFields(key, email, password))
    requires rsa(window) == [0] + WriteAll([], Logins.LoginFields(key, email, password)) + filler
    requires AllUnsent(outs) && Apart(outs)
    requires forall o | o in outs :: o.msg != conn.msg && o.msg.buffer != conn.msg.buffer
    modifies conn, conn.msg, conn.msg.buffer, conn.manager`connections
    modifies outs, (set o | o in outs :: o.msg), (set o | o in outs :: o.msg.buffer)
    ensures Waiting(conn) && conn.key == key
    ensures conn.log == [Authenticated] + EventsOf(Arriving(old(BufferedAll(outs))))
    ensures AllWrittenAs(old(BufferedAll(outs)), packets) ==> AllReadAs(conn.log[1..], packets)
  {
    hide XteaCipher, EventsOf, Arriving, AllWrittenAs, AllReadAs, WriteAll, AllAccepted;
    hide Logins.LoginFields, Logins.ClientPacket, Logins.FirstPacket;
    var content := Logins.ClientPacket(number, system, version, skipped, window);
    forall behind | |behind| == RESERVED
      ensures Logins.FirstPacket(content, behind, rsa, versionMin) == Logins.Credentials(key, email, password)
    {
      Logins.ClientLogsIn(
        number, system, version, skipped, window, behind, rsa, versionMin, key, email, password, filler);
    }
    assert conn.pending == conn.State().pending && conn.log == conn.State().log == [];
    ReceiveFirst(conn, content, Handling(rsa, versionMin, false), Logins.Credentials(key, email, password));
    ghost var ms := BufferedAll(outs);
    Exchange(conn, outs);
    assert conn.log[1..] == EventsOf(Arriving(ms));
    if AllWrittenAs(ms, packets) {
      PacketsRead(ms, packets);
    }
  }
}
