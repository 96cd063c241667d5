/** Both ends of the wire together: what one side encrypts under a key, the
    other side's receive loop hands to the protocol. */
module Wire {
  import opened Chunks
  import opened Connections
  import opened Frames
  import opened Sessions
  import opened Words
  import opened Xtea

  /** What is left of a stream when no further content can be cut from it. */
  function Rest(stream: seq<byte>): seq<byte> {
    if |stream| < 2 then stream
    else
      var size := Load16(stream[..2]);
      if !HeaderAccepted(size) || |stream| < 2 + size then stream else Rest(stream[2 + size..])
  }

  /** The stream runs into an outer length that is refused. */
  predicate Refused(stream: seq<byte>) {
    |Rest(stream)| >= 2 && !HeaderAccepted(Load16(Rest(stream)[..2]))
  }

  /** A connection that has authenticated and waits for the next header. */
  ghost predicate Waiting(conn: Connection)
    reads conn, conn.msg
  {
    conn.Valid() && conn.pending == [Header] && conn.receivedFirst && !conn.closed
  }

  /** An outer length comes in. */
  method ReceiveHeader(conn: Connection, bytes: seq<byte>)
    requires Waiting(conn) && |bytes| == 2
    modifies conn, conn.msg, conn.msg.buffer, conn.manager`connections
    ensures conn.Valid() && conn.key == old(conn.key) && conn.receivedFirst
    ensures conn.closed <==> !HeaderAccepted(Load16(bytes))
    ensures conn.closed ==> conn.log == old(conn.log) + [Closed]
    ensures !conn.closed ==> conn.log == old(conn.log) && conn.pending == [Content(Load16(bytes))]
  {
    hide HeaderAccepted, Load16;
    conn.ParseHeader(false, bytes, false);
    assert conn.pending == conn.State().pending;
  }

  /** A content comes in, and neither its handlers close the connection nor
      does starting the next read fail. */
  method ReceiveContent(conn: Connection, content: seq<byte>)
    requires conn.Valid() && conn.receivedFirst && !conn.closed && |content| < 0x1_0000
             && conn.pending == [Content(|content|)]
    modifies conn, conn.msg, conn.msg.buffer, conn.manager`connections
    ensures Waiting(conn) && conn.key == old(conn.key)
    ensures conn.log == old(conn.log) + EventsOf(Open(XteaCipher(conn.key), content))
  {
    hide XteaCipher, Open, EventsOf;
    conn.ParsePacket(false, content, Handling(w => w, 0, false), false);
    assert conn.pending == conn.State().pending && conn.log == conn.State().log;
  }

  /** The receive loop on a stream of bytes, as the sequence of completions of
      its reads: as long as neither a timeout nor a handler interferes, exactly
      the deliveries of the stream are recorded, in order, whatever was in the
      buffer before. A refused length closes the connection. */
  method ReceiveStream(conn: Connection, stream: seq<byte>)
    requires Waiting(conn)
    modifies conn, conn.msg, conn.msg.buffer, conn.manager`connections
    ensures conn.Valid() && conn.key == old(conn.key)
    ensures conn.closed <==> Refused(stream)
    ensures Rest(stream) == [] ==> Waiting(conn)
    ensures conn.log == old(conn.log) + EventsOf(Deliveries(XteaCipher(conn.key), stream))
                        + if Refused(stream) then [Closed] else []
  {
    hide XteaCipher, Open, HeaderAccepted, Load16, Refused, Deliveries, EventsOf;
    ghost var c := XteaCipher(conn.key);
    var left := stream;
    ghost var done: seq<Event> := [];
    while |left| >= 2
      invariant Waiting(conn)
      invariant conn.key == old(conn.key) && conn.log == old(conn.log) + done
      invariant Refused(stream) == Refused(left) && Rest(stream) == Rest(left)
      invariant EventsOf(Deliveries(c, stream)) == done + EventsOf(Deliveries(c, left))
      decreases |left|
    {
      var size: nat := Load16(left[..2]);
      ReceiveHeader(conn, left[..2]);
      if conn.closed || |left| < 2 + size {
        NothingDelivered(c, left);
        return;
      }
      var content := left[2..2 + size];
      DeliverOne(c, left);
      ReceiveContent(conn, content);
      done := done + EventsOf(Open(c, content));
      left := left[2 + size..];
    }
    NothingDelivered(c, left);
  }

  lemma NothingDelivered(c: Cipher, stream: seq<byte>)
    requires |stream| < 2 || !HeaderAccepted(Load16(stream[..2])) || |stream| < 2 + Load16(stream[..2]) as int
    ensures EventsOf(Deliveries(c, stream)) == []
    ensures Refused(stream) <==> |stream| >= 2 && !HeaderAccepted(Load16(stream[..2]))
    ensures Rest(stream) == stream
  {
  }

  /** The first content of a stream is delivered first. */
  lemma DeliverOne(c: Cipher, stream: seq<byte>)
    requires |stream| >= 2
    requires var size := Load16(stream[..2]); HeaderAccepted(size) && 2 + size <= |stream|
    ensures
      var size := Load16(stream[..2]);
      && EventsOf(Deliveries(c, stream)) == EventsOf(Open(c, stream[2..2 + size]))
         + EventsOf(Deliveries(c, stream[2 + size..]))
      && Refused(stream) == Refused(stream[2 + size..]) && Rest(stream) == Rest(stream[2 + size..])
  {
    var size := Load16(stream[..2]);
    var content, left := stream[2..2 + size], stream[2 + size..];
    assert Split(stream) == [content] + Split(left);
    assert Split(stream)[1..] == Split(left);
    var opened' := Open(c, content);
    if opened' == [] {
      assert opened' + Deliveries(c, left) == Deliveries(c, left);
    } else {
      assert (opened' + Deliveries(c, left))[1..] == Deliveries(c, left);
      assert opened'[1..] == [];
    }
  }

  /** For every key and every list of unsent messages, the concatenation of
      what `EncryptMessage` sends is delivered as the bodies in order; the one
      body length without padding is dropped, and nothing else is. */
  lemma WireDelivers(k: Key, ms: seq<Unsent>)
    ensures Deliveries(XteaCipher(k), SendAll(XteaCipher(k), ms)) == Arriving(ms)
    ensures Deliveries(XteaCipher(k), SendAll(XteaCipher(k), ms)) == Bodies(ms)
            <==> forall i | 0 <= i < |ms| :: |ms[i].body| <= LONGEST_SENDABLE
    ensures Rest(SendAll(XteaCipher(k), ms)) == [] && !Refused(SendAll(XteaCipher(k), ms))
  {
    hide XteaCipher;
    XteaInverts(k);
    StreamDelivers(XteaCipher(k), ms);
    StreamRoundTrip(XteaCipher(k), ms);
    NothingRefused(XteaCipher(k), ms);
  }

  lemma {:induction false} NothingRefused(c: Cipher, ms: seq<Unsent>)
    requires c.Inverts()
    ensures Rest(SendAll(c, ms)) == []
  {
    if ms != [] {
      var content, stream := Frames.Content(c, ms[0].body, ms[0].spill), SendAll(c, ms);
      SizeLimit(c, ms[0].body, ms[0].spill);
      LoadStore16(|content|);
      assert stream[..2] == Store16(|content|);
      assert stream[2 + |content|..] == SendAll(c, ms[1..]);
      NothingRefused(c, ms[1..]);
    }
  }

  /** A message of 24567 bytes is swallowed whole. */
  lemma LongestIsLost(k: Key, m: Unsent)
    requires |m.body| == LONGEST_BODY
    ensures Deliveries(XteaCipher(k), SendAll(XteaCipher(k), [m])) == [] != Bodies([m])
  {
    hide XteaCipher;
    WireDelivers(k, [m]);
  }
}
