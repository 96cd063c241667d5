/** `OutputMessage` (include/network/outputmessage.h) and the send side of the
    protocol (src/utils/xtea.cpp, src/network/protocol.cpp). An output message
    owns a network message and the start of what will be sent; its three
    headers are written backwards into the 8 reserved bytes. */
module OutputMessages {
  import opened Adler
  import opened Chunks
  import opened Fields
  import opened Frames
  import opened NetworkMessages
  import opened Words
  import opened Xtea

  class OutputMessage {
    const msg: NetworkMessage
    var outputBufferStart: u16

    ghost predicate Valid()
      reads this, msg
    {
      msg.Valid() && outputBufferStart + msg.length <= MAX_SIZE
    }

    ghost predicate Unsent()
      reads this, msg
    {
      msg.Writing() && outputBufferStart == RESERVED
    }

    /** What `async_write` is given. */
    ghost function Output(): seq<byte>
      requires Valid()
      reads this, msg, msg.buffer
    {
      msg.buffer[outputBufferStart..outputBufferStart + msg.length]
    }

    /** The message as its buffer holds it: the body and the bytes behind it. */
    ghost function Buffered(): Frames.Unsent
      requires Unsent()
      reads this, msg, msg.buffer
    {
      var end := RESERVED + msg.length;
      Frames.Buffered(msg.Body(), msg.buffer[end..end + 7])
    }

    /** The body stands in the buffer behind its inner length, with `spill`
        where the padding would go. */
    ghost predicate Holds(body: seq<byte>, spill: seq<byte>)
      reads this, msg, msg.buffer
    {
      && msg.Valid() && outputBufferStart == 6 && |body| <= LONGEST_BODY && |spill| == 7
      && msg.length == |body| + 2 && msg.position == |body| + RESERVED
      && msg.buffer[6..8 + |body|] == Inner(body) && msg.buffer[8 + |body|..15 + |body|] == spill
    }

    constructor ()
      ensures Unsent() && msg.Body() == [] && fresh(msg) && fresh(msg.buffer)
    {
      msg := new NetworkMessage();
      outputBufferStart := RESERVED;
    }

    /** `add_header` */
    method AddHeader(bytes: seq<byte>)
      requires Valid() && |bytes| <= outputBufferStart
      modifies this, msg`length, msg.buffer
      ensures Valid() && Output() == bytes + old(Output())
      ensures outputBufferStart == old(outputBufferStart) - |bytes|
      ensures msg.length == old(msg.length) + |bytes|
      ensures msg.buffer[old(outputBufferStart)..] == old(msg.buffer[outputBufferStart..])
    {
      hide Splice;
      ghost var b, end := msg.buffer[..], outputBufferStart + msg.length;
      outputBufferStart := outputBufferStart - |bytes|;
      SpliceFront(b, outputBufferStart, bytes, end);
      SpliceBehind(b, outputBufferStart, bytes, MAX_SIZE);
      Memcpy(msg.buffer, outputBufferStart, bytes);
      msg.length := msg.length + |bytes|;
      assert msg.buffer[..][outputBufferStart..end] == msg.buffer[outputBufferStart..end];
      assert msg.buffer[..][outputBufferStart + |bytes|..MAX_SIZE] == msg.buffer[outputBufferStart + |bytes|..];
    }

    method WriteMessageLength()
      requires Valid() && 2 <= outputBufferStart
      modifies this, msg`length, msg.buffer
      ensures Valid() && Output() == Store16(old(msg.length)) + old(Output())
      ensures outputBufferStart == old(outputBufferStart) - 2
      ensures msg.length == old(msg.length) + 2
      ensures old(Unsent()) ==> Holds(old(Buffered()).body, old(Buffered()).spill)
    {
      AddHeader(Store16(msg.length));
      if old(Unsent()) {
        assert msg.buffer[6..RESERVED + old(msg.length)] == Output();
        SameBehind(old(msg.buffer[..]), msg.buffer[..], old(msg.length));
      }
    }

    method AddCryptoHeader()
      requires Valid() && 6 <= outputBufferStart
      modifies this, msg`length, msg.buffer
      ensures Valid() && outputBufferStart == old(outputBufferStart) - 6
      ensures Output() == Store16(|old(Output())| + 4) + Store32(Checksum(old(Output()))) + old(Output())
    {
      var checksum := AdlerChecksum(msg.buffer[outputBufferStart..outputBufferStart + msg.length]);
      AddHeader(Store32(checksum));
      WriteMessageLength();
    }
  }

  lemma WholeBlocksPadded(n: nat)
    ensures WholeBlocks(n) == n + Missing(n) == WholeBlocks(n + Missing(n))
  {
  }

  /** `XTEA::encrypt`: pads the message to whole blocks, if it may, and
      encrypts as many blocks as the message then reaches into. */
  method EncryptXtea(k: Key, out: OutputMessage)
    requires out.Valid() && out.outputBufferStart + WholeBlocks(out.msg.length) <= MAX_SIZE
    modifies out.msg`length, out.msg.buffer
    ensures
      var n, p := old(out.msg.length), Missing(old(out.msg.length));
      var filled := Padded(old(out.msg.buffer[..]), out.msg.position, p);
      && out.msg.buffer[..] == MapWindow(XteaCipher(k).encrypt, filled, out.outputBufferStart, WholeBlocks(n))
      && out.msg.length == n + if out.msg.CanAdd(p) then p else 0
  {
    hide XteaCipher, MapWindow, Splice, WholeBlocks, MapChunks, Missing, Inner, Payload;
    var msg := out.msg;
    WholeBlocksPadded(msg.length);
    var paddingBytes := msg.length % 8;
    if paddingBytes != 0 {
      msg.AddPaddingBytes(8 - paddingBytes);
    } else {
      SpliceNothing(msg.buffer[..], msg.position);
    }
    EncryptBuffer(k, msg.buffer, out.outputBufferStart, msg.length);
  }

  /** A buffer with `p` bytes of padding at `position`, if they are let through. */
  function Padded(b: seq<byte>, position: nat, p: nat): (r: seq<byte>)
    requires |b| == MAX_SIZE
    ensures |r| == |b|
  {
    if p + position < MAX_BODY_LENGTH then Splice(b, position, Padding(p)) else b
  }

  lemma SpliceNothing(b: seq<byte>, position: nat)
    requires |b| == MAX_SIZE
    ensures Padded(b, position, 0) == b
  {
  }

  lemma SameBehind(before: seq<byte>, after: seq<byte>, n: nat)
    requires |before| == |after| == MAX_SIZE && 15 + n <= MAX_SIZE
    requires before[8..] == after[8..]
    ensures before[8 + n..15 + n] == after[8 + n..15 + n]
  {
    assert before[8..][n..n + 7] == after[8..][n..n + 7];
  }

  /** What is encrypted, and what of it is sent. */
  lemma EncryptedWindow(c: Cipher, b: seq<byte>, body: seq<byte>, spill: seq<byte>)
    requires |b| == MAX_SIZE && |body| <= LONGEST_BODY && |spill| == 7
    requires b[6..8 + |body|] == Inner(body) && b[8 + |body|..15 + |body|] == spill
    ensures
      var p := Missing(|body| + 2);
      var filled := Padded(b, 8 + |body|, p);
      var n := |Payload(c, body, spill)|;
      MapWindow(c.encrypt, filled, 6, |body| + 2 + p)[6..6 + n] == Payload(c, body, spill)
  {
    hide Missing, Inner, MapChunks;
    var p := Missing(|body| + 2);
    var filled := Padded(b, 8 + |body|, p);
    assert b[8 + |body|..8 + |body| + p] == spill[..p];
    assert filled[6..8 + |body| + p] == filled[6..8 + |body|] + filled[8 + |body|..8 + |body| + p];
    assert filled[6..8 + |body| + p] == Plain(body, spill);
    var r := MapChunks(c.encrypt, Plain(body, spill));
    assert MapWindow(c.encrypt, filled, 6, |r|)[6..6 + |r|] == r;
  }

  /** Encrypting a body behind its inner length. */
  method EncryptInner(k: Key, out: OutputMessage, ghost body: seq<byte>, ghost spill: seq<byte>)
    requires out.Holds(body, spill)
    modifies out.msg`length, out.msg.buffer
    ensures out.Valid() && out.Output() == Payload(XteaCipher(k), body, spill)
  {
    hide XteaCipher, MapWindow, Padded, Payload, WholeBlocks, Missing, Inner;
    WholeBlocksPadded(|body| + 2);
    ghost var b := out.msg.buffer[..];
    EncryptXtea(k, out);
    EncryptedWindow(XteaCipher(k), b, body, spill);
    assert out.Output() == out.msg.buffer[..][6..6 + out.msg.length];
  }

  /** `Protocol::encryptMessage`: whatever body an unsent message holds, what
      it sends is the frame of that body, and the headers use up the reserved
      bytes exactly. */
  method EncryptMessage(k: Key, out: OutputMessage)
    requires out.Unsent()
    modifies out, out.msg, out.msg.buffer
    ensures out.Valid() && out.outputBufferStart == 0
    ensures out.Output() == Frame(XteaCipher(k), old(out.Buffered()).body, old(out.Buffered()).spill)
  {
    hide XteaCipher, Checksum, Store16, Store32, Payload, Inner;
    ghost var body, spill := out.Buffered().body, out.Buffered().spill;
    out.WriteMessageLength();
    EncryptInner(k, out, body, spill);
    out.AddCryptoHeader();
  }
}
