/** The encrypted frame: what `Protocol::encryptMessage` makes of a body, and
    what the receive path makes of the bytes of a frame. */
module Frames {
  import opened Adler
  import opened Chunks
  import opened Fields
  import opened NetworkMessages
  import opened Words

  /** The longest body an unsent message can have, and the longest one that
      still gets its padding. */
  const LONGEST_BODY := 24567
  const LONGEST_SENDABLE := 24566

  /** `NETWORKMESSAGE_MAXSIZE - 16`: the outer length that is refused. */
  const FRAME_LIMIT := MAX_SIZE - 16

  /** The body behind its inner length. */
  function Inner(body: seq<byte>): (r: seq<byte>)
    requires |body| <= LONGEST_BODY
    ensures |r| == |body| + 2
  {
    Store16(|body|) + body
  }

  /** How many bytes are missing to a multiple of 8. */
  function Missing(n: nat): (p: nat)
    ensures p < 8 && (n + p) % 8 == 0
  {
    if n % 8 == 0 then 0 else 8 - n % 8
  }

  /** `addPaddingBytes` lets the padding of a body of `n` bytes through. */
  predicate PaddingFits(n: nat) {
    CanHold(n + Missing(n + 2))
  }

  /** The one body length for which the padding is refused. */
  lemma PaddingRefusedOnce(n: nat)
    requires n <= LONGEST_BODY
    ensures PaddingFits(n) <==> n != LONGEST_BODY
    ensures PaddingFits(n) <==> n <= LONGEST_SENDABLE
  {
  }

  /** The whole blocks that get encrypted. `spill` is what the buffer holds
      behind the body, where the padding goes if it is let through. */
  function Plain(body: seq<byte>, spill: seq<byte>): (r: seq<byte>)
    requires |body| <= LONGEST_BODY && |spill| == 7
    ensures |r| == |body| + 2 + Missing(|body| + 2)
  {
    var p := Missing(|body| + 2);
    Inner(body) + if PaddingFits(|body|) then Padding(p) else spill[..p]
  }

  /** The bytes that count as message after encryption. */
  function Payload(c: Cipher, body: seq<byte>, spill: seq<byte>): (r: seq<byte>)
    requires |body| <= LONGEST_BODY && |spill| == 7
    ensures |r| == |body| + 2 + if PaddingFits(|body|) then Missing(|body| + 2) else 0
  {
    MapChunks(c.encrypt, Plain(body, spill))[..|body| + 2 + if PaddingFits(|body|) then Missing(|body| + 2) else 0]
  }

  /** What follows the outer length. */
  function Content(c: Cipher, body: seq<byte>, spill: seq<byte>): (r: seq<byte>)
    requires |body| <= LONGEST_BODY && |spill| == 7
    ensures |r| == |Payload(c, body, spill)| + 4
  {
    Store32(Checksum(Payload(c, body, spill))) + Payload(c, body, spill)
  }

  function Frame(c: Cipher, body: seq<byte>, spill: seq<byte>): (r: seq<byte>)
    requires |body| <= LONGEST_BODY && |spill| == 7
    ensures |r| == |Content(c, body, spill)| + 2
  {
    Store16(|Content(c, body, spill)|) + Content(c, body, spill)
  }

  /** `parseHeader` goes on to read a content of this length. */
  predicate HeaderAccepted(size: u16) {
    0 < size < FRAME_LIMIT
  }

  /** What `XTEA::decrypt` leaves to be read when the cipher text starts at
      `at` of the content: the bytes behind the inner length, if that length
      is one the message can hold. */
  function OpenAt(c: Cipher, content: seq<byte>, at: nat): (r: seq<seq<byte>>)
    requires at == 0 || at == 4
    ensures |r| <= 1
  {
    var n := |content| - 4;
    if n < 8 || n % 8 != 0 then []
    else
      var plain := MapWindow(c.decrypt, content, at, n);
      var inner := Load16(plain[at..at + 2]);
      if inner > n - 2 then [] else [plain[at + 2..inner + 6]]
  }

  /** The bytes the receive path hands to the readers for a frame with this
      content, or none if the frame is dropped. A wrong checksum is not an
      error: the four bytes are then taken for cipher text. */
  function Open(c: Cipher, content: seq<byte>): (r: seq<seq<byte>>)
    ensures |r| <= 1
  {
    if |content| > 4 && Load32(content[..4]) == Checksum(content[4..])
    then OpenAt(c, content, 4) else OpenAt(c, content, 0)
  }

  /** A body that got its padding is opened again, whatever the buffer held
      behind it. */
  lemma OpenFrame(c: Cipher, body: seq<byte>, spill: seq<byte>)
    requires |body| <= LONGEST_SENDABLE && |spill| == 7 && c.Inverts()
    ensures Open(c, Content(c, body, spill)) == [body]
    ensures HeaderAccepted(|Content(c, body, spill)|)
  {
    hide Checksum, Store16, Load16, Store32, Load32, MapChunks;
    PaddingRefusedOnce(|body|);
    var content, plain, payload := Content(c, body, spill), Plain(body, spill), Payload(c, body, spill);
    assert payload == MapChunks(c.encrypt, plain);
    LoadStore32(Checksum(payload));
    LoadStore16(|body|);
    assert content[..4] == Store32(Checksum(payload)) && content[4..] == payload;
    MapChunksInverts(c.encrypt, c.decrypt, plain);
    assert content[4..4 + |payload|] == payload;
    var clear := Splice(content, 4, plain);
    assert clear[4..] == plain;
    assert clear[4..6] == plain[..2] == Store16(|body|);
    assert clear[6..|body| + 6] == plain[2..|body| + 2] == body;
  }

  /** A frame by its bytes: the length of what follows, the checksum of what
      follows that, and the cipher text of the body's length, the body and 0x33s
      up to a whole block. Numbers are little-endian. */
  lemma FrameLayout(c: Cipher, body: seq<byte>, spill: seq<byte>)
    requires |body| <= LONGEST_SENDABLE && |spill| == 7 && c.Inverts()
    ensures var f := Frame(c, body, spill); var p := Missing(|body| + 2);
            && |f| == |body| + p + 8 && LittleEndian(f[..2]) == |f| - 2 && LittleEndian(f[2..6]) == Checksum(f[6..])
            && (|f| - 6) % 8 == 0 && LittleEndian(MapChunks(c.decrypt, f[6..])[..2]) == |body|
            && MapChunks(c.decrypt, f[6..])[2..] == body + seq(p, _ => 0x33)
  {
    hide Checksum, Store16, Load16, Store32, Load32, MapChunks, LittleEndian;
    PaddingRefusedOnce(|body|);
    var f, plain, payload := Frame(c, body, spill), Plain(body, spill), Payload(c, body, spill);
    assert payload == MapChunks(c.encrypt, plain);
    assert f[..2] == Store16(|f| - 2) && f[2..6] == Store32(Checksum(payload)) && f[6..] == payload;
    LoadStore16(|f| - 2);
    LoadsLittleEndian(f[..2]);
    LoadStore32(Checksum(payload));
    LoadsLittleEndian(f[2..6]);
    MapChunksInverts(c.encrypt, c.decrypt, plain);
    assert plain[..2] == Store16(|body|);
    LoadStore16(|body|);
    LoadsLittleEndian(plain[..2]);
    assert plain[2..] == body + Padding(Missing(|body| + 2));
    assert Padding(Missing(|body| + 2)) == seq(Missing(|body| + 2), _ => 0x33);
  }

  /** The body that did not get its padding is sent in a frame whose header is
      accepted and whose content is then dropped. */
  lemma LongestBodyDropped(c: Cipher, body: seq<byte>, spill: seq<byte>)
    requires |body| == LONGEST_BODY && |spill| == 7
    ensures Open(c, Content(c, body, spill)) == []
    ensures HeaderAccepted(|Content(c, body, spill)|)
  {
    PaddingRefusedOnce(|body|);
  }

  /** Over all bodies an unsent message can have: the padding is let through,
      and the receiver gets the body back, up to 24566 bytes and no further. */
  lemma SizeLimit(c: Cipher, body: seq<byte>, spill: seq<byte>)
    requires |body| <= LONGEST_BODY && |spill| == 7 && c.Inverts()
    ensures HeaderAccepted(|Content(c, body, spill)|)
    ensures PaddingFits(|body|) <==> |body| <= LONGEST_SENDABLE
    ensures Open(c, Content(c, body, spill)) == [body] <==> |body| <= LONGEST_SENDABLE
    ensures Open(c, Content(c, body, spill)) == [] <==> |body| == LONGEST_BODY
  {
    PaddingRefusedOnce(|body|);
    if |body| <= LONGEST_SENDABLE {
      OpenFrame(c, body, spill);
    } else {
      LongestBodyDropped(c, body, spill);
    }
  }

  /** A content with a wrong checksum is not dropped for it: it is delivered if
      and only if it has whole blocks behind its first four bytes, and its first
      two bytes decrypt to an inner length that fits. */
  lemma WrongChecksum(c: Cipher, content: seq<byte>)
    requires |content| > 4 && Load32(content[..4]) != Checksum(content[4..])
    ensures Open(c, content) != [] <==>
            |content| >= 12 && |content| % 8 == 4
            && Load16(MapWindow(c.decrypt, content, 0, |content| - 4)[..2]) <= |content| - 6
  {
    hide MapWindow, Load16, Load32, Checksum;
  }

  /** Under every cipher there is such a content of twelve bytes. */
  lemma WrongChecksumDelivered(c: Cipher) returns (content: seq<byte>)
    requires c.Inverts()
    ensures |content| == 12 && Load32(content[..4]) != Checksum(content[4..]) && Open(c, content) != []
  {
    hide MapChunks, Load32, Checksum;
    var zeros: Chunk := [0, 0, 0, 0, 0, 0, 0, 0];
    var block := c.encrypt(zeros);
    content := block + [0, 0, 0, 0];
    if Load32(content[..4]) == Checksum(content[4..]) {
      OneByteChangeDetected(content[4..], 7, 1);
      assert content[4..][7 := 1] == (block + [0, 0, 0, 1])[4..];
      content := block + [0, 0, 0, 1];
      assert content[..4] == (block + [0, 0, 0, 0])[..4];
    }
    assert content[0..8] == block;
    OneChunk(c.decrypt, block);
    assert MapWindow(c.decrypt, content, 0, 8)[..2] == [0, 0];
    WrongChecksum(c, content);
  }

  lemma OneChunk(f: Chunk -> Chunk, chunk: Chunk)
    ensures MapChunks(f, chunk) == f(chunk)
  {
    assert chunk[..0] == [] && chunk[0..] == chunk;
    assert MapChunks(f, chunk) == MapChunks(f, chunk[..0]) + f(chunk[0..]);
  }

  /** The contents the receive loop cuts a byte stream into, until a length
      is refused or the stream ends inside a frame. */
  function Split(stream: seq<byte>): seq<seq<byte>> {
    if |stream| < 2 then []
    else
      var size := Load16(stream[..2]);
      if !HeaderAccepted(size) || |stream| < 2 + size then []
      else [stream[2..2 + size]] + Split(stream[2 + size..])
  }

  /** The messages a byte stream is delivered as, under one key. */
  function Deliveries(c: Cipher, stream: seq<byte>): seq<seq<byte>> {
    OpenAll(c, Split(stream))
  }

  function OpenAll(c: Cipher, contents: seq<seq<byte>>): seq<seq<byte>> {
    if contents == [] then [] else Open(c, contents[0]) + OpenAll(c, contents[1..])
  }

  /** A message as it stands in its buffer when it is sent. */
  datatype Buffered = Buffered(body: seq<byte>, spill: seq<byte>)

  type Unsent = m: Buffered | |m.body| <= LONGEST_BODY && |m.spill| == 7
    witness Buffered([], [0, 0, 0, 0, 0, 0, 0])

  function SendAll(c: Cipher, ms: seq<Unsent>): seq<byte> {
    if ms == [] then [] else Frame(c, ms[0].body, ms[0].spill) + SendAll(c, ms[1..])
  }

  /** The bodies that arrive: all but those of the one length that is dropped. */
  function Arriving(ms: seq<Unsent>): seq<seq<byte>> {
    if ms == [] then []
    else (if |ms[0].body| <= LONGEST_SENDABLE then [ms[0].body] else []) + Arriving(ms[1..])
  }

  /** Messages sent one after the other under one key are split, checked,
      decrypted and delivered as the same bodies in the same order; the
      dropped length does not disturb its neighbours. */
  lemma {:induction false} StreamDelivers(c: Cipher, ms: seq<Unsent>)
    requires c.Inverts()
    ensures Deliveries(c, SendAll(c, ms)) == Arriving(ms)
    decreases |ms|
  {
    if ms != [] {
      var content := Content(c, ms[0].body, ms[0].spill);
      var stream := SendAll(c, ms);
      SizeLimit(c, ms[0].body, ms[0].spill);
      LoadStore16(|content|);
      assert stream[..2] == Store16(|content|);
      assert stream[2..2 + |content|] == content;
      assert stream[2 + |content|..] == SendAll(c, ms[1..]);
      StreamDelivers(c, ms[1..]);
      assert ([content] + Split(SendAll(c, ms[1..])))[1..] == Split(SendAll(c, ms[1..]));
    }
  }

  function Bodies(ms: seq<Unsent>): seq<seq<byte>> {
    if ms == [] then [] else [ms[0].body] + Bodies(ms[1..])
  }

  /** The stream round trip is exact when, and only when, no message has the
      length that is dropped. */
  lemma StreamRoundTrip(c: Cipher, ms: seq<Unsent>)
    requires c.Inverts()
    ensures Deliveries(c, SendAll(c, ms)) == Bodies(ms)
            <==> forall i | 0 <= i < |ms| :: |ms[i].body| <= LONGEST_SENDABLE
  {
    StreamDelivers(c, ms);
    ArrivingAll(ms);
  }

  lemma {:induction false} ArrivingAll(ms: seq<Unsent>)
    ensures |Arriving(ms)| <= |ms| == |Bodies(ms)|
    ensures |Arriving(ms)| == |ms| ==> forall i | 0 <= i < |ms| :: |ms[i].body| <= LONGEST_SENDABLE
    ensures (forall i | 0 <= i < |ms| :: |ms[i].body| <= LONGEST_SENDABLE) ==> Arriving(ms) == Bodies(ms)
  {
    if ms != [] {
      ArrivingAll(ms[1..]);
    }
  }
}
