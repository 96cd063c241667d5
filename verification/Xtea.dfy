/** The XTEA cipher of src/utils/xtea.cpp: its 32 rounds, their inverse, and
    the loops that run them in place over a window of a buffer. */
module Xtea {
  import opened Chunks
  import opened Feistel
  import opened Words

  type Key = k: seq<u32> | |k| == 4 witness [0, 0, 0, 0]

  const DELTA: u32 := 0x61C88647
  const DECRYPT_SUM: u32 := 0xC6EF3720

  /** `((v << 4 ^ v >> 5) + v) ^ t` */
  function MixBits(v: bv32, t: bv32): bv32 {
    Masked(Blend(v << 4, v >> 5, v), t)
  }

  function Mix(v: u32, t: u32): u32 {
    MixBits(v as bv32, t as bv32) as int
  }

  function Blend(x: bv32, y: bv32, v: bv32): bv32 {
    (x ^ y) + v
  }

  function Masked(x: bv32, t: bv32): bv32 {
    x ^ t
  }

  /** The mix in arithmetic modulo 2^32, without shifts: but for `t`, it is `v` plus
      the exclusive or of 16 times `v` and a 32nd of `v`. */
  lemma MixLaw(v: bv32, t: bv32)
    ensures MixBits(v, t) ^ t == ((16 * v) ^ (v / 32)) + v
  {
    hide MixBits, Blend, Masked;
    MixShifted(v, t);
    Shifts(v);
    Unblended(v);
  }

  lemma MixShifted(v: bv32, t: bv32)
    ensures MixBits(v, t) ^ t == Blend(v << 4, v >> 5, v)
  {
    hide Blend;
    Cancels(Blend(v << 4, v >> 5, v), t);
  }

  lemma Cancels(x: bv32, t: bv32)
    ensures Masked(x, t) ^ t == x
  {
  }

  lemma Shifts(v: bv32)
    ensures v << 4 == 16 * v && v >> 5 == v / 32
  {
  }

  lemma Unblended(v: bv32)
    ensures Blend(16 * v, v / 32, v) == ((16 * v) ^ (v / 32)) + v
  {
  }

  /** The round counter after `i` encryption rounds. */
  function SumAfter(i: nat): u32 {
    if i == 0 then 0 else Sub32(SumAfter(i - 1), DELTA)
  }

  /** 32 rounds of encryption leave the counter where decryption starts. */
  lemma SumAfterAllRounds()
    ensures SumAfter(32) == DECRYPT_SUM
  {
    assert SumAfter(5) == 0x1715609D;
    assert SumAfter(10) == 0x2E2AC13A;
    assert SumAfter(15) == 0x454021D7;
    assert SumAfter(20) == 0x5C558274;
    assert SumAfter(25) == 0x736AE311;
    assert SumAfter(30) == 0x8A8043AE;
  }

  /** The mixes of encryption round `i`. */
  function RoundAt(k: Key, i: nat): Round {
    Round(v => Mix(v, Add32(SumAfter(i), k[SumAfter(i) % 4])),
          v => Mix(v, Add32(SumAfter(i + 1), k[SumAfter(i + 1) / 0x800 % 4])))
  }

  function Rounds(k: Key): (rs: seq<Round>)
    ensures |rs| == 32
  {
    seq(32, i requires 0 <= i => RoundAt(k, i))
  }

  lemma RoundsPrefix(k: Key, i: nat)
    requires i < 32
    ensures Rounds(k)[..i + 1][..i] == Rounds(k)[..i] && Rounds(k)[..i + 1][i] == RoundAt(k, i)
    ensures Rounds(k)[..32] == Rounds(k)
    ensures Add32(SumAfter(i + 1), DELTA) == SumAfter(i)
  {
    hide Mix;
  }

  function LoadBlock(c: Chunk): Block {
    Block(Load32(c[..4]), Load32(c[4..]))
  }

  function StoreBlock(b: Block): Chunk {
    Store32(b.v0) + Store32(b.v1)
  }

  lemma StoreLoadBlock(c: Chunk)
    ensures StoreBlock(LoadBlock(c)) == c
  {
    StoreLoad32(c[..4]);
    StoreLoad32(c[4..]);
    assert c[..4] + c[4..] == c;
  }

  lemma LoadStoreBlock(b: Block)
    ensures LoadBlock(StoreBlock(b)) == b
  {
    LoadStore32(b.v0);
    LoadStore32(b.v1);
    assert StoreBlock(b)[..4] == Store32(b.v0) && StoreBlock(b)[4..] == Store32(b.v1);
  }

  function EncryptChunk(k: Key, c: Chunk): Chunk {
    StoreBlock(ForwardAll(Rounds(k), LoadBlock(c)))
  }

  function DecryptChunk(k: Key, c: Chunk): Chunk {
    StoreBlock(BackwardAll(Rounds(k), LoadBlock(c)))
  }

  function XteaCipher(k: Key): Cipher {
    Cipher(c => EncryptChunk(k, c), c => DecryptChunk(k, c))
  }

  /** For every key, XTEA decryption and encryption undo each other. */
  lemma XteaInverts(k: Key)
    ensures XteaCipher(k).Inverts()
  {
    hide Mix, StoreBlock, LoadBlock;
    forall c: Chunk
      ensures DecryptChunk(k, EncryptChunk(k, c)) == c
      ensures EncryptChunk(k, DecryptChunk(k, c)) == c
    {
      var b := LoadBlock(c);
      StoreLoadBlock(c);
      LoadStoreBlock(ForwardAll(Rounds(k), b));
      LoadStoreBlock(BackwardAll(Rounds(k), b));
      BackwardUndoesForward(Rounds(k), b);
      ForwardUndoesBackward(Rounds(k), b);
    }
  }

  /** The block loop of `XTEA::encrypt`: `length` bytes from `at`, rounded up
      to whole blocks. */
  method EncryptBuffer(k: Key, buffer: array<byte>, at: nat, length: nat)
    requires at + WholeBlocks(length) <= buffer.Length
    modifies buffer
    ensures buffer[..] == MapWindow(XteaCipher(k).encrypt, old(buffer[..]), at, WholeBlocks(length))
  {
    hide XteaCipher, MapWindow, Splice, WholeBlocks;
    ghost var s := buffer[..];
    MapWindowEmpty(XteaCipher(k).encrypt, s, at);
    var readPos := 0;
    while readPos < length
      invariant readPos % 8 == 0 && readPos <= WholeBlocks(length)
      invariant buffer[..] == MapWindow(XteaCipher(k).encrypt, s, at, readPos)
    {
      MapWindowStep(XteaCipher(k).encrypt, s, at, readPos);
      EncryptBlock(k, buffer, at + readPos);
      readPos := readPos + 8;
    }
  }

  /** The block loop of `XTEA::decrypt`. */
  method DecryptBuffer(k: Key, buffer: array<byte>, at: nat, length: nat)
    requires at + WholeBlocks(length) <= buffer.Length
    modifies buffer
    ensures buffer[..] == MapWindow(XteaCipher(k).decrypt, old(buffer[..]), at, WholeBlocks(length))
  {
    hide XteaCipher, MapWindow, Splice, WholeBlocks;
    ghost var s := buffer[..];
    MapWindowEmpty(XteaCipher(k).decrypt, s, at);
    var readPos := 0;
    while readPos < length
      invariant readPos % 8 == 0 && readPos <= WholeBlocks(length)
      invariant buffer[..] == MapWindow(XteaCipher(k).decrypt, s, at, readPos)
    {
      MapWindowStep(XteaCipher(k).decrypt, s, at, readPos);
      DecryptBlock(k, buffer, at + readPos);
      readPos := readPos + 8;
    }
  }

  /** One pass of the block loop of `XTEA::encrypt`. */
  method EncryptBlock(k: Key, buffer: array<byte>, at: nat)
    requires at + 8 <= buffer.Length
    modifies buffer
    ensures buffer[..] == Splice(old(buffer[..]), at, XteaCipher(k).encrypt(old(buffer[..])[at..at + 8]))
  {
    hide Mix, Load32, Store32, Rounds;
    ghost var c: Chunk := buffer[..][at..at + 8];
    assert c[..4] == buffer[at..at + 4] && c[4..] == buffer[at + 4..at + 8];
    var v0, v1 := EncryptRounds(k, Load32(buffer[at..at + 4]), Load32(buffer[at + 4..at + 8]));
    Memcpy(buffer, at, Store32(v0));
    Memcpy(buffer, at + 4, Store32(v1));
  }

  /** One pass of the block loop of `XTEA::decrypt`. */
  method DecryptBlock(k: Key, buffer: array<byte>, at: nat)
    requires at + 8 <= buffer.Length
    modifies buffer
    ensures buffer[..] == Splice(old(buffer[..]), at, XteaCipher(k).decrypt(old(buffer[..])[at..at + 8]))
  {
    hide Mix, Load32, Store32, Rounds;
    ghost var c: Chunk := buffer[..][at..at + 8];
    assert c[..4] == buffer[at..at + 4] && c[4..] == buffer[at + 4..at + 8];
    var v0, v1 := DecryptRounds(k, Load32(buffer[at..at + 4]), Load32(buffer[at + 4..at + 8]));
    Memcpy(buffer, at, Store32(v0));
    Memcpy(buffer, at + 4, Store32(v1));
  }

  /** The round loop of `XTEA::encrypt`. */
  method EncryptRounds(k: Key, x0: u32, x1: u32) returns (v0: u32, v1: u32)
    ensures Block(v0, v1) == ForwardAll(Rounds(k), Block(x0, x1))
  {
    hide Mix, Add32, Sub32, Rounds;
    v0, v1 := x0, x1;
    var sum: u32 := 0;
    for i := 0 to 32
      invariant sum == SumAfter(i)
      invariant Block(v0, v1) == ForwardAll(Rounds(k)[..i], Block(x0, x1))
    {
      RoundsPrefix(k, i);
      v0 := Add32(v0, Mix(v1, Add32(sum, k[sum % 4])));
      sum := Sub32(sum, DELTA);
      v1 := Add32(v1, Mix(v0, Add32(sum, k[sum / 0x800 % 4])));
    }
    RoundsPrefix(k, 31);
  }

  /** One turn of the loop of `XTEA::decrypt` takes off the last round. */
  lemma OneBack(k: Key, i: nat, v0: u32, v1: u32)
    requires i < 32
    ensures
      var w1 := Sub32(v1, Mix(v0, Add32(SumAfter(i + 1), k[SumAfter(i + 1) / 0x800 % 4])));
      var w0 := Sub32(v0, Mix(w1, Add32(SumAfter(i), k[SumAfter(i) % 4])));
      BackwardAll(Rounds(k)[..i + 1], Block(v0, v1)) == BackwardAll(Rounds(k)[..i], Block(w0, w1))
  {
    hide Mix, Add32, Sub32, Rounds, SumAfter;
    RoundsPrefix(k, i);
  }

  /** The round loop of `XTEA::decrypt`. */
  method DecryptRounds(k: Key, x0: u32, x1: u32) returns (v0: u32, v1: u32)
    ensures Block(v0, v1) == BackwardAll(Rounds(k), Block(x0, x1))
  {
    hide Mix, Add32, Sub32, Rounds;
    v0, v1 := x0, x1;
    SumAfterAllRounds();
    var sum: u32 := DECRYPT_SUM;
    RoundsPrefix(k, 31);
    for i := 0 to 32
      invariant sum == SumAfter(32 - i)
      invariant BackwardAll(Rounds(k)[..32 - i], Block(v0, v1)) == BackwardAll(Rounds(k), Block(x0, x1))
    {
      hide SumAfter, BackwardAll;
      OneBack(k, 31 - i, v0, v1);
      RoundsPrefix(k, 31 - i);
      v1 := Sub32(v1, Mix(v0, Add32(sum, k[sum / 0x800 % 4])));
      sum := Add32(sum, DELTA);
      v0 := Sub32(v0, Mix(v1, Add32(sum, k[sum % 4])));
    }
    assert Rounds(k)[..0] == [];
  }
}
