/** SHA-1 as FIPS 180-4 defines it (sections 4.1.1, 4.2.1, 5.1.1, 5.3.1 and
    6.1.2), and the block function of src/utils/tools.cpp. */
module Sha1 {
  import opened Options
  import opened Words

  function Either(x: bv32, y: bv32): bv32 {
    x | y
  }

  /** Rotation to the left by 1, 5 or 30 places. */
  function Left1(x: bv32): bv32 {
    Either(x << 1, x >> 31)
  }

  function Left5(x: bv32): bv32 {
    Either(x << 5, x >> 27)
  }

  function Left30(x: bv32): bv32 {
    Either(x << 30, x >> 2)
  }

  function Rotl1(x: u32): u32 {
    Left1(x as bv32) as int
  }

  function Rotl5(x: u32): u32 {
    Left5(x as bv32) as int
  }

  function Rotl30(x: u32): u32 {
    Left30(x as bv32) as int
  }

  /** In arithmetic modulo 2^32: the multiple, and in the places that it leaves
      free, what it lost. */
  lemma RotationLaw(x: bv32)
    ensures Left1(x) == Either(2 * x, x / 0x8000_0000) && (2 * x) & (x / 0x8000_0000) == 0
    ensures Left5(x) == Either(32 * x, x / 0x800_0000) && (32 * x) & (x / 0x800_0000) == 0
    ensures Left30(x) == Either(0x4000_0000 * x, x / 4) && (0x4000_0000 * x) & (x / 4) == 0
  {
    hide Either;
    Shifted1(x);
    Shifted5(x);
    Shifted30(x);
  }

  lemma Shifted1(x: bv32)
    ensures x << 1 == 2 * x && x >> 31 == x / 0x8000_0000 && (x << 1) & (x >> 31) == 0
  {
  }

  lemma Shifted5(x: bv32)
    ensures x << 5 == 32 * x && x >> 27 == x / 0x800_0000 && (x << 5) & (x >> 27) == 0
  {
  }

  lemma Shifted30(x: bv32)
    ensures x << 30 == 0x4000_0000 * x && x >> 2 == x / 4 && (x << 30) & (x >> 2) == 0
  {
  }

  function XorBits(x: bv32, y: bv32): bv32 {
    x ^ y
  }

  function Xor(x: u32, y: u32): u32 {
    XorBits(x as bv32, y as bv32) as int
  }

  /** The functions of section 4.1.1. */
  function Ch(x: bv32, y: bv32, z: bv32): bv32 {
    (x & y) ^ (!x & z)
  }

  function Parity(x: bv32, y: bv32, z: bv32): bv32 {
    x ^ y ^ z
  }

  function Maj(x: bv32, y: bv32, z: bv32): bv32 {
    (x & y) ^ (x & z) ^ (y & z)
  }

  /** Bit by bit: `Ch` chooses between `y` and `z`, `Parity` is odd or even, and
      `Maj` goes with two of three. */
  lemma FunctionLaws(x: bv32, y: bv32, z: bv32)
    ensures x & Ch(x, y, z) == x & y && !x & Ch(x, y, z) == !x & z
    ensures Parity(x, x, z) == z && Parity(x, y, y) == x && Parity(x, y, x) == y
    ensures Maj(x, x, z) == x && Maj(x, y, y) == y && Maj(x, y, x) == x
  {
  }

  /** The function of round `t`, and its constant. */
  function FBits(t: nat, x: bv32, y: bv32, z: bv32): bv32 {
    if t < 20 then Ch(x, y, z) else if 40 <= t < 60 then Maj(x, y, z) else Parity(x, y, z)
  }

  function F(t: nat, x: u32, y: u32, z: u32): u32 {
    FBits(t, x as bv32, y as bv32, z as bv32) as int
  }

  function K(t: nat): u32 {
    if t < 20 then 0x5A827999 else if t < 40 then 0x6ED9EBA1 else if t < 60 then 0x8F1BBCDC else 0xCA62C1D6
  }

  /** The constants are 2^30 times the square roots of 2, 3, 5 and 10, rounded down. */
  lemma ConstantsAreRoots(t: nat)
    ensures var n := if t < 20 then 2 else if t < 40 then 3 else if t < 60 then 5 else 10;
            var k: int := K(t);
            k * k <= n * 0x1000_0000_0000_0000 < (k + 1) * (k + 1)
  {
  }

  datatype Hash = Hash(a: u32, b: u32, c: u32, d: u32, e: u32)

  const INITIAL := Hash(0x67452301, 0xEFCDAB89, 0x98BADCFE, 0x10325476, 0xC3D2E1F0)

  type Block = s: seq<byte> | |s| == 64 witness seq(64, _ => 0)

  /** Four bytes as a word, most significant first. */
  function BigEndian(b0: byte, b1: byte, b2: byte, b3: byte): u32 {
    var w: int := b0;
    ((w * 0x100 + b1) * 0x100 + b2) * 0x100 + b3
  }

  /** The message schedule. */
  function W(m: Block, t: nat): u32 {
    if t < 16 then BigEndian(m[4 * t], m[4 * t + 1], m[4 * t + 2], m[4 * t + 3])
    else Rotl1(Xor(Xor(Xor(W(m, t - 3), W(m, t - 8)), W(m, t - 14)), W(m, t - 16)))
  }

  function Round(h: Hash, t: nat, w: u32): Hash {
    Hash(Add32(Add32(Add32(Add32(Rotl5(h.a), F(t, h.b, h.c, h.d)), h.e), K(t)), w), h.a, Rotl30(h.b), h.c, h.d)
  }

  function Rounds(h: Hash, m: Block, t: nat): Hash {
    if t == 0 then h else Round(Rounds(h, m, t - 1), t - 1, W(m, t - 1))
  }

  const TURNS: nat := 80

  function Compress(h: Hash, m: Block): Hash {
    var r := Rounds(h, m, TURNS);
    Hash(Add32(h.a, r.a), Add32(h.b, r.b), Add32(h.c, r.c), Add32(h.d, r.d), Add32(h.e, r.e))
  }

  function HashBlocks(h: Hash, s: seq<byte>): Hash
    requires |s| % 64 == 0
  {
    if |s| == 0 then h else Compress(HashBlocks(h, s[..|s| - 64]), s[|s| - 64..])
  }

  /** The low `k` bytes of `n`, most significant first. */
  function BytesOf(n: nat, k: nat): (s: seq<byte>)
    ensures |s| == k
  {
    if k == 0 then [] else BytesOf(n / 0x100, k - 1) + [n % 0x100]
  }

  /** How many zero bytes bring a message of `n` bytes, the byte 80 and the
      length to whole blocks. */
  function ZeroCount(n: nat): (z: nat)
    ensures z < 64 && (n + 1 + z + 8) % 64 == 0
  {
    (119 - n % 64) % 64
  }

  function Zeros(n: nat): (s: seq<byte>)
    ensures |s| == n
  {
    seq(n, _ => 0)
  }

  /** Section 5.1.1, for messages of whole bytes. */
  function Pad(s: seq<byte>): (r: seq<byte>)
    ensures |r| % 64 == 0
  {
    s + [0x80] + Zeros(ZeroCount(|s|)) + BytesOf(8 * |s|, 8)
  }

  function Digest(s: seq<byte>): Hash {
    HashBlocks(INITIAL, Pad(s))
  }

  /** The expressions the code has in place of `Ch` and `Maj`. */
  function SourceCh(x: bv32, y: bv32, z: bv32): bv32 {
    (x & y) | (!x & z)
  }

  function SourceMaj(x: bv32, y: bv32, z: bv32): bv32 {
    (x & y) | (x & z) | (y & z)
  }

  lemma ChForm(x: bv32, y: bv32, z: bv32)
    ensures SourceCh(x, y, z) == Ch(x, y, z)
  {
    assert (x & y) & (!x & z) == 0;
  }

  lemma MajBits(x: bv32, y: bv32, z: bv32)
    ensures (x & y) | (x & z) | (y & z) == (x & y) ^ (x & z) ^ (y & z)
  {
  }

  lemma MajForm(x: bv32, y: bv32, z: bv32)
    ensures SourceMaj(x, y, z) == Maj(x, y, z)
  {
    MajBits(x, y, z);
  }

  /** What the four round loops use for the function of round `t`. */
  function SourceF(t: nat, x: u32, y: u32, z: u32): u32 {
    (if t < 20 then SourceCh(x as bv32, y as bv32, z as bv32)
     else if 40 <= t < 60 then SourceMaj(x as bv32, y as bv32, z as bv32)
     else Parity(x as bv32, y as bv32, z as bv32)) as int
  }

  lemma SourceFunction(t: nat, x: u32, y: u32, z: u32)
    ensures SourceF(t, x, y, z) == F(t, x, y, z)
  {
    hide Ch, Maj, SourceCh, SourceMaj, Parity;
    ChForm(x as bv32, y as bv32, z as bv32);
    MajForm(x as bv32, y as bv32, z as bv32);
  }

  function HashOf(h: seq<u32>): Hash
    requires |h| == 5
  {
    Hash(h[0], h[1], h[2], h[3], h[4])
  }

  lemma LastTwo(x: u32, k: u32, w: u32)
    ensures Add32(Add32(x, k), w) == Add32(Add32(x, w), k)
  {
  }

  /** One turn of the four round loops, all five variables moving at once. */
  method Turn(t: nat, a: u32, b: u32, c: u32, d: u32, e: u32, f: u32, w: u32, k: u32)
      returns (a': u32, b': u32, c': u32, d': u32, e': u32)
    requires f == F(t, b, c, d) && k == K(t)
    ensures Hash(a', b', c', d', e') == Round(Hash(a, b, c, d, e), t, w)
  {
    hide Rotl5, Rotl30, F, K, Add32;
    LastTwo(Add32(Add32(Rotl5(a), f), e), k, w);
    var tmp := Add32(Add32(Add32(Add32(Rotl5(a), f), e), w), k);
    e', d', c', b', a' := d, c, Rotl30(b), a, tmp;
  }

  method Schedule(block: array<byte>) returns (w: array<u32>)
    requires block.Length == 64
    ensures fresh(w) && w.Length == 80 && forall t | 0 <= t < 80 :: w[t] == W(block[..], t)
  {
    hide BigEndian, Rotl1, Xor;
    ghost var m: Block := block[..];
    w := new u32[80];
    for i := 0 to 16
      invariant forall t | 0 <= t < i :: w[t] == W(m, t)
    {
      var offset := i * 4;
      w[i] := BigEndian(block[offset], block[offset + 1], block[offset + 2], block[offset + 3]);
    }
    for i := 16 to 80
      invariant forall t | 0 <= t < i :: w[t] == W(m, t)
    {
      w[i] := Rotl1(Xor(Xor(Xor(w[i - 3], w[i - 8]), w[i - 14]), w[i - 16]));
    }
  }

  /** `processSHA1MessageBlock` */
  method ProcessBlock(block: array<byte>, h: array<u32>)
    requires block.Length == 64 && h.Length == 5
    modifies h
    ensures HashOf(h[..]) == Compress(HashOf(old(h[..])), block[..])
  {
    hide W, F, Add32, SourceF, Round;
    ghost var start, m: Block := HashOf(h[..]), block[..];
    var w := Schedule(block);
    assert block[..] == m;
    var a, b, c, d, e := h[0], h[1], h[2], h[3], h[4];
    for i := 0 to 20
      invariant Hash(a, b, c, d, e) == Rounds(start, m, i)
      invariant h[..] == old(h[..]) && forall t | 0 <= t < 80 :: w[t] == W(m, t)
    {
      SourceFunction(i, b, c, d);
      a, b, c, d, e := Turn(i, a, b, c, d, e, SourceF(i, b, c, d), w[i], 0x5A827999);
    }
    for i := 20 to 40
      invariant Hash(a, b, c, d, e) == Rounds(start, m, i)
      invariant h[..] == old(h[..]) && forall t | 0 <= t < 80 :: w[t] == W(m, t)
    {
      SourceFunction(i, b, c, d);
      a, b, c, d, e := Turn(i, a, b, c, d, e, SourceF(i, b, c, d), w[i], 0x6ED9EBA1);
    }
    for i := 40 to 60
      invariant Hash(a, b, c, d, e) == Rounds(start, m, i)
      invariant h[..] == old(h[..]) && forall t | 0 <= t < 80 :: w[t] == W(m, t)
    {
      SourceFunction(i, b, c, d);
      a, b, c, d, e := Turn(i, a, b, c, d, e, SourceF(i, b, c, d), w[i], 0x8F1BBCDC);
    }
    for i := 60 to 80
      invariant Hash(a, b, c, d, e) == Rounds(start, m, i)
      invariant h[..] == old(h[..]) && forall t | 0 <= t < 80 :: w[t] == W(m, t)
    {
      SourceFunction(i, b, c, d);
      a, b, c, d, e := Turn(i, a, b, c, d, e, SourceF(i, b, c, d), w[i], 0xCA62C1D6);
    }
    h[0], h[1], h[2], h[3], h[4] := Add32(h[0], a), Add32(h[1], b), Add32(h[2], c), Add32(h[3], d), Add32(h[4], e);
  }

  lemma BlockAppended(h: Hash, s: seq<byte>, m: Block)
    requires |s| % 64 == 0
    ensures HashBlocks(h, s + m) == Compress(HashBlocks(h, s), m)
  {
    hide Compress;
    assert (s + m)[..|s + m| - 64] == s && (s + m)[|s + m| - 64..] == m;
  }

  /** The state words and the first `index` bytes of the block stand for the
      message `s` so far. */
  predicate Absorbed(h: seq<u32>, block: seq<byte>, index: nat, s: seq<byte>) {
    && |h| == 5 && |block| == 64 && index <= 64 && index <= |s| && (|s| - index) % 64 == 0
    && block[..index] == s[|s| - index..]
    && HashOf(h) == HashBlocks(INITIAL, s[..|s| - index])
  }

  lemma ByteAbsorbed(h: seq<u32>, block: seq<byte>, index: nat, s: seq<byte>, b: byte)
    requires index < 64 && Absorbed(h, block, index, s)
    ensures Absorbed(h, block[index := b], index + 1, s + [b])
  {
    hide HashBlocks;
    assert (s + [b])[..|s + [b]| - (index + 1)] == s[..|s| - index];
    assert block[index := b][..index + 1] == block[..index] + [b];
  }

  lemma BlockAbsorbed(h: seq<u32>, h': seq<u32>, block: seq<byte>, s: seq<byte>)
    requires Absorbed(h, block, 64, s) && |h'| == 5 && HashOf(h') == Compress(HashOf(h), block)
    ensures Absorbed(h', block, 0, s)
  {
    hide Compress, HashBlocks;
    BlockAppended(INITIAL, s[..|s| - 64], block);
    assert s[..|s| - 64] + block == s == s[..|s| - 0];
  }

  /** Fills the block with zeros up to `end`. */
  method FillZeros(block: array<byte>, h: array<u32>, index: nat, end: nat, ghost s: seq<byte>)
    requires block.Length == 64 && h.Length == 5 && index <= end <= 64 && Absorbed(h[..], block[..], index, s)
    modifies block
    ensures Absorbed(h[..], block[..], end, s + Zeros(end - index))
  {
    hide Absorbed;
    var i := index;
    assert s + Zeros(0) == s;
    while i < end
      invariant index <= i <= end
      invariant Absorbed(h[..], block[..], i, s + Zeros(i - index))
    {
      ByteAbsorbed(h[..], block[..], i, s + Zeros(i - index), 0);
      assert s + Zeros(i - index) + [0] == s + Zeros(i + 1 - index);
      ghost var before := block[..];
      block[i] := 0;
      assert block[..] == before[i := 0];
      i := i + 1;
    }
  }

  /** `n`, most significant byte first, as the shifts of the code spell it. */
  function WordBytes(n: u32): (s: seq<byte>)
    ensures |s| == 4
  {
    [n / 0x100_0000, n / 0x1_0000 % 0x100, n / 0x100 % 0x100, n % 0x100]
  }

  lemma WordOfBytes(n: u32)
    ensures var b := WordBytes(n); n == BigEndian(b[0], b[1], b[2], b[3])
  {
    var q1: int := n / 0x100;
    var q2: int := q1 / 0x100;
    assert n / 0x1_0000 == q2 && n / 0x100_0000 == q2 / 0x100;
    assert n == 0x100 * q1 + n % 0x100 && q1 == 0x100 * q2 + q1 % 0x100 && q2 == 0x100 * (q2 / 0x100) + q2 % 0x100;
  }

  lemma LastByte(rest: nat, b: byte, k: nat)
    ensures BytesOf(rest * 0x100 + b, k + 1) == BytesOf(rest, k) + [b]
  {
    var n: int := rest * 0x100 + b;
    assert n / 0x100 == rest && n % 0x100 == b;
  }

  lemma WordAppended(q: nat, w: u32, k: nat)
    ensures BytesOf(q * 0x1_0000_0000 + w, k + 4) == BytesOf(q, k) + WordBytes(w)
  {
    hide WordBytes, BytesOf;
    WordOfBytes(w);
    var b := WordBytes(w);
    var q0: int := q * 0x100 + b[0];
    var q1: int := q0 * 0x100 + b[1];
    var q2: int := q1 * 0x100 + b[2];
    LastByte(q, b[0], k);
    LastByte(q0, b[1], k + 1);
    LastByte(q1, b[2], k + 2);
    LastByte(q2, b[3], k + 3);
    assert BytesOf(q, k) + [b[0]] + [b[1]] + [b[2]] + [b[3]] == BytesOf(q, k) + b;
  }

  /** The two counters together are the low 64 bits of the length. */
  lemma LengthCounters(n: nat, high: u32, low: u32)
    requires low == n % 0x1_0000_0000 && high == n / 0x1_0000_0000 % 0x1_0000_0000
    ensures WordBytes(high) + WordBytes(low) == BytesOf(n, 8)
  {
    hide WordBytes;
    var top := n / 0x1_0000_0000;
    WordAppended(top, low, 4);
    WordAppended(top / 0x1_0000_0000, high, 0);
  }

  lemma CounterStep(n: nat, high: u32, low: u32, high': u32, low': u32)
    requires low == 8 * n % 0x1_0000_0000 && high == 8 * n / 0x1_0000_0000 % 0x1_0000_0000
    requires low' == (low + 8) % 0x1_0000_0000
    requires high' == if low' == 0 then (high + 1) % 0x1_0000_0000 else high
    ensures low' == 8 * (n + 1) % 0x1_0000_0000 && high' == 8 * (n + 1) / 0x1_0000_0000 % 0x1_0000_0000
  {
    var q: int := 8 * n / 0x1_0000_0000;
    assert 8 * (n + 1) == 0x1_0000_0000 * q + low + 8;
    if low + 8 < 0x1_0000_0000 {
      assert 8 * (n + 1) / 0x1_0000_0000 == q;
    } else {
      assert low % 8 == 0;
      assert 8 * (n + 1) / 0x1_0000_0000 == q + 1;
    }
  }

  /** The loop over the input, with its two 32-bit counters of bits. */
  method AbsorbInput(input: seq<byte>, block: array<byte>, h: array<u32>) returns (index: nat, high: u32, low: u32)
    requires block.Length == 64 && h.Length == 5 && HashOf(h[..]) == INITIAL
    modifies block, h
    ensures index == |input| % 64 && Absorbed(h[..], block[..], index, input)
    ensures low == 8 * |input| % 0x1_0000_0000 && high == 8 * |input| / 0x1_0000_0000 % 0x1_0000_0000
  {
    hide Add32, Compress, HashOf, INITIAL;
    index, high, low := 0, 0, 0;
    for i := 0 to |input|
      invariant index < 64 && Absorbed(h[..], block[..], index, input[..i])
      invariant low == 8 * i % 0x1_0000_0000 && high == 8 * i / 0x1_0000_0000 % 0x1_0000_0000
    {
      hide Absorbed;
      index, high, low := AbsorbByte(input[..i], input[i], block, h, index, high, low);
      assert input[..i + 1] == input[..i] + [input[i]];
    }
    assert input[..|input|] == input;
  }

  method AbsorbByte(ghost s: seq<byte>, b: byte, block: array<byte>, h: array<u32>, index0: nat, high0: u32, low0: u32)
      returns (index: nat, high: u32, low: u32)
    requires block.Length == 64 && h.Length == 5 && index0 < 64 && Absorbed(h[..], block[..], index0, s)
    requires low0 == 8 * |s| % 0x1_0000_0000 && high0 == 8 * |s| / 0x1_0000_0000 % 0x1_0000_0000
    modifies block, h
    ensures index < 64 && Absorbed(h[..], block[..], index, s + [b])
    ensures low == 8 * (|s| + 1) % 0x1_0000_0000 && high == 8 * (|s| + 1) / 0x1_0000_0000 % 0x1_0000_0000
  {
    hide Compress, HashOf, Absorbed;
    ByteAbsorbed(h[..], block[..], index0, s, b);
    ghost var before := block[..];
    block[index0] := b;
    assert block[..] == before[index0 := b];
    index, high, low := index0 + 1, high0, (low0 + 8) % 0x1_0000_0000;
    if low == 0 {
      high := (high0 + 1) % 0x1_0000_0000;
    }
    CounterStep(|s|, high0, low0, high, low);
    if index == 64 {
      ghost var words := h[..];
      ProcessBlock(block, h);
      BlockAbsorbed(words, h[..], block[..], s + [b]);
      index := 0;
    }
  }

  lemma PadInTwo(s: seq<byte>, a: nat, b: nat)
    requires a + b == ZeroCount(|s|)
    ensures s + [0x80] + Zeros(a) + Zeros(b) + BytesOf(8 * |s|, 8) == Pad(s)
  {
    hide BytesOf, ZeroCount, Zeros;
    ZerosJoin(a, b);
    Regroup(s + [0x80], Zeros(a), Zeros(b));
  }

  lemma Regroup(p: seq<byte>, q: seq<byte>, r: seq<byte>)
    ensures p + q + r == p + (q + r)
  {
  }

  lemma ZerosJoin(a: nat, b: nat)
    ensures Zeros(a) + Zeros(b) == Zeros(a + b)
  {
  }

  /** The byte 80, the zeros on one of the two paths, the two counters, and the
      last block. */
  method Finish(ghost s: seq<byte>, block: array<byte>, h: array<u32>, index0: nat, high: u32, low: u32)
    requires block.Length == 64 && h.Length == 5 && index0 == |s| % 64 && Absorbed(h[..], block[..], index0, s)
    requires low == 8 * |s| % 0x1_0000_0000 && high == 8 * |s| / 0x1_0000_0000 % 0x1_0000_0000
    modifies block, h
    ensures HashOf(h[..]) == Digest(s)
  {
    hide Absorbed, Compress, Pad, WordBytes, BytesOf, HashBlocks, INITIAL, Zeros, HashOf;
    ByteAbsorbed(h[..], block[..], index0, s, 0x80);
    ghost var before := block[..];
    block[index0] := 0x80;
    assert block[..] == before[index0 := 0x80];
    var index := index0 + 1;
    ghost var t := s + [0x80];
    ghost var early := 0;
    NoZeros(t);
    if index > 56 {
      FillZeros(block, h, index, 64, t);
      early := 64 - index;
      ghost var words := h[..];
      ProcessBlock(block, h);
      BlockAbsorbed(words, h[..], block[..], t + Zeros(early));
      index := 0;
    }
    FillZeros(block, h, index, 56, t + Zeros(early));
    PadInTwo(s, early, 56 - index);
    FinishLength(s, t + Zeros(early) + Zeros(56 - index), block, h, high, low);
  }

  lemma NoZeros(s: seq<byte>)
    ensures s + Zeros(0) == s
  {
  }

  lemma LengthAbsorbed(h: seq<u32>, before: seq<byte>, block: seq<byte>, t: seq<byte>, u: seq<byte>)
    requires |before| == 56 && |u| == 8 && block == before + u && Absorbed(h, before + u, 56, t)
    ensures Absorbed(h, block, 64, t + u)
  {
    hide HashBlocks, HashOf;
    assert (t + u)[..|t + u| - 64] == t[..|t| - 56];
    assert (t + u)[|t + u| - 64..] == t[|t| - 56..] + u;
  }

  method FinishLength(ghost s: seq<byte>, ghost t: seq<byte>, block: array<byte>, h: array<u32>, high: u32, low: u32)
    requires block.Length == 64 && h.Length == 5 && Absorbed(h[..], block[..], 56, t)
    requires t + BytesOf(8 * |s|, 8) == Pad(s)
    requires low == 8 * |s| % 0x1_0000_0000 && high == 8 * |s| / 0x1_0000_0000 % 0x1_0000_0000
    modifies block, h
    ensures HashOf(h[..]) == Digest(s)
  {
    hide Compress, Pad, BytesOf, HashBlocks, INITIAL, HashOf;
    LengthCounters(8 * |s|, high, low);
    ghost var before := block[..56];
    block[56], block[57] := high / 0x100_0000, high / 0x1_0000 % 0x100;
    block[58], block[59] := high / 0x100 % 0x100, high % 0x100;
    block[60], block[61] := low / 0x100_0000, low / 0x1_0000 % 0x100;
    block[62], block[63] := low / 0x100 % 0x100, low % 0x100;
    assert block[..] == before + WordBytes(high) + WordBytes(low);
    assert block[..] == before + BytesOf(8 * |s|, 8);
    LengthAbsorbed(h[..], before, block[..], t, BytesOf(8 * |s|, 8));
    ghost var words := h[..];
    ProcessBlock(block, h);
    BlockAbsorbed(words, h[..], block[..], Pad(s));
    assert Pad(s)[..|Pad(s)| - 0] == Pad(s);
  }

  const HEX_DIGITS := "0123456789abcdef"

  function HexOf(b: byte): (s: string)
    ensures |s| == 2
  {
    [HEX_DIGITS[b / 16], HEX_DIGITS[b % 16]]
  }

  /** The value of a lower-case hexadecimal digit. */
  function DigitValue(c: char): Option<nat> {
    if '0' <= c <= '9' then Some(c as int - '0' as int)
    else if 'a' <= c <= 'f' then Some(c as int - 'a' as int + 10)
    else None
  }

  /** Reads hexadecimal digits, most significant first. */
  function HexValue(s: string): Option<nat> {
    if |s| == 0 then Some(0)
    else match (HexValue(s[..|s| - 1]), DigitValue(s[|s| - 1])) {
      case (Some(n), Some(d)) => Some(16 * n + d)
      case _ => None
    }
  }

  lemma HexNothing()
    ensures HexValue([]) == Some(0)
  {
  }

  lemma HexByte(s: string, n: nat, b: byte)
    requires HexValue(s) == Some(n)
    ensures HexValue(s + HexOf(b)) == Some(0x100 * n + b)
  {
    var t := s + HexOf(b)[..1];
    assert t[..|t| - 1] == s && (s + HexOf(b))[..|t|] == t;
    assert DigitValue(HEX_DIGITS[b / 16]) == Some(b / 16) && DigitValue(HEX_DIGITS[b % 16]) == Some(b % 16);
  }

  function ByteOfWord(w: u32, k: nat): byte
    requires k < 4
  {
    WordBytes(w)[k]
  }

  lemma HexWord(w: u32, s: string)
    requires |s| == 8 && forall k | 0 <= k < 4 :: s[2 * k..2 * k + 2] == HexOf(ByteOfWord(w, k))
    ensures HexValue(s) == Some(w)
  {
    hide HexValue, WordBytes, HexOf;
    var b := WordBytes(w);
    assert s == [] + HexOf(b[0]) + HexOf(b[1]) + HexOf(b[2]) + HexOf(b[3]) by {
      assert forall k | 0 <= k < 4 :: HexOf(ByteOfWord(w, k)) == HexOf(b[k]);
      assert s[2 * 0..2 * 0 + 2] == HexOf(b[0]) && s[2 * 1..2 * 1 + 2] == HexOf(b[1]);
      assert s[2 * 2..2 * 2 + 2] == HexOf(b[2]) && s[2 * 3..2 * 3 + 2] == HexOf(b[3]);
      assert s == s[2 * 0..2 * 0 + 2] + s[2 * 1..2 * 1 + 2] + s[2 * 2..2 * 2 + 2] + s[2 * 3..2 * 3 + 2];
    }
    HexNothing();
    var v0: int := b[0];
    HexByte([], 0, b[0]);
    HexByte([] + HexOf(b[0]), v0, b[1]);
    HexByte([] + HexOf(b[0]) + HexOf(b[1]), 0x100 * v0 + b[1], b[2]);
    HexByte([] + HexOf(b[0]) + HexOf(b[1]) + HexOf(b[2]), 0x100 * (0x100 * v0 + b[1]) + b[2], b[3]);
    WordOfBytes(w);
  }

  /** The five words of `h`, eight digits each. */
  ghost predicate Spells(hex: string, h: seq<u32>) {
    && |hex| == 8 * |h|
    && forall k | 0 <= k < |h| :: HexValue(hex[8 * k..8 * k + 8]) == Some(h[k])
  }

  /** The loop over the twenty bytes, last first. */
  method HexString(h: array<u32>) returns (hex: string)
    requires h.Length == 5
    ensures Spells(hex, h[..])
  {
    hide HexOf, ByteOfWord;
    var hexstring := new char[40](_ => '0');
    var hashByte := 20;
    while hashByte > 0
      invariant 0 <= hashByte <= 20
      invariant forall j | hashByte <= j < 20 :: hexstring[2 * j..2 * j + 2] == HexOf(ByteOfWord(h[j / 4], j % 4))
    {
      hashByte := hashByte - 1;
      var digits := HexOf(ByteOfWord(h[hashByte / 4], hashByte % 4));
      hexstring[2 * hashByte], hexstring[2 * hashByte + 1] := digits[0], digits[1];
    }
    hex := hexstring[..];
    SpelledByBytes(hex, h[..]);
  }

  lemma PairAt(hex: string, k: nat, i: nat)
    requires i < 4 && 8 * k + 8 <= |hex|
    ensures hex[8 * k..8 * k + 8][2 * i..2 * i + 2] == hex[2 * (4 * k + i)..2 * (4 * k + i) + 2]
  {
  }

  lemma SpelledByBytes(hex: string, h: seq<u32>)
    requires |h| == 5 && |hex| == 40
    requires forall j | 0 <= j < 20 :: hex[2 * j..2 * j + 2] == HexOf(ByteOfWord(h[j / 4], j % 4))
    ensures Spells(hex, h)
  {
    hide HexOf, ByteOfWord, HexValue;
    forall k | 0 <= k < 5 ensures HexValue(hex[8 * k..8 * k + 8]) == Some(h[k]) {
      var s := hex[8 * k..8 * k + 8];
      forall i | 0 <= i < 4 ensures s[2 * i..2 * i + 2] == HexOf(ByteOfWord(h[k], i)) {
        var j := 4 * k + i;
        assert j / 4 == k && j % 4 == i;
        PairAt(hex, k, i);
      }
      HexWord(h[k], s);
    }
  }

  /** `transformToSHA1` */
  method TransformToSHA1(input: seq<byte>) returns (hex: string)
    ensures var d := Digest(input); Spells(hex, [d.a, d.b, d.c, d.d, d.e])
  {
    hide Absorbed, Digest, Spells;
    var h := new u32[5];
    h[0], h[1], h[2], h[3], h[4] := 0x67452301, 0xEFCDAB89, 0x98BADCFE, 0x10325476, 0xC3D2E1F0;
    var block := new byte[64](_ => 0);
    var index, high, low := AbsorbInput(input, block, h);
    Finish(input, block, h, index, high, low);
    hex := HexString(h);
    assert h[..] == [h[0], h[1], h[2], h[3], h[4]];
  }
}
