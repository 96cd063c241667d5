/** Bytes, machine words and the little-endian `memcpy` of integers that the
    wire code relies on. */
module Words {

  /** `NETWORKMESSAGE_MAXSIZE` */
  const MAX_SIZE := 24590

  type byte = x: int | 0 <= x < 0x100
  type u16 = x: int | 0 <= x < 0x1_0000
  type u32 = x: int | 0 <= x < 0x1_0000_0000
  type u64 = x: int | 0 <= x < 0x1_0000_0000_0000_0000

  /** 32-bit unsigned addition and subtraction, wrapping as in C++. */
  function Add32(x: u32, y: u32): u32 {
    var sum: int := x + y;
    if sum < 0x1_0000_0000 then sum else sum - 0x1_0000_0000
  }

  function Sub32(x: u32, y: u32): u32 {
    var diff: int := x - y;
    if diff < 0 then diff + 0x1_0000_0000 else diff
  }

  lemma WrapAround(x: u32, y: u32)
    ensures Add32(x, y) == (x + y) % 0x1_0000_0000 && Sub32(x, y) == (x - y) % 0x1_0000_0000
  {
  }

  /** The number that bytes stand for, least significant first. */
  function LittleEndian(s: seq<byte>): nat {
    if s == [] then 0 else s[0] + 0x100 * LittleEndian(s[1..])
  }

  /** Integers are loaded, and so stored, least significant byte first. */
  lemma LoadsLittleEndian(s: seq<byte>)
    ensures |s| == 2 ==> Load16(s) == LittleEndian(s)
    ensures |s| == 4 ==> Load32(s) == LittleEndian(s)
    ensures |s| == 8 ==> Load64(s) == LittleEndian(s)
  {
    if |s| == 2 {
      TwoBytes(s);
    } else if |s| == 4 {
      FourBytes(s);
    } else if |s| == 8 {
      EightBytes(s);
    }
  }

  lemma TwoBytes(s: seq<byte>)
    requires |s| == 2
    ensures Load16(s) == LittleEndian(s)
  {
    assert s[1..][1..] == [];
    assert LittleEndian(s[1..]) == s[1] + 0x100 * LittleEndian([]);
  }

  lemma FourBytes(s: seq<byte>)
    requires |s| == 4
    ensures Load32(s) == LittleEndian(s)
  {
    TwoBytes(s[..2]);
    TwoBytes(s[2..]);
    HigherBytes(s, 2);
  }

  lemma EightBytes(s: seq<byte>)
    requires |s| == 8
    ensures Load64(s) == LittleEndian(s)
  {
    hide Load32, LittleEndian, Place;
    FourBytes(s[..4]);
    FourBytes(s[4..]);
    HigherBytes(s, 4);
  }

  /** `0x100` to the power of `n` */
  function Place(n: nat): nat {
    if n == 0 then 1 else 0x100 * Place(n - 1)
  }

  lemma {:induction false} HigherBytes(s: seq<byte>, n: nat)
    requires n <= |s|
    ensures LittleEndian(s) == LittleEndian(s[..n]) + Place(n) * LittleEndian(s[n..])
    ensures Place(2) == 0x1_0000 && Place(4) == 0x1_0000_0000
  {
    if n > 0 {
      HigherBytes(s[1..], n - 1);
      assert s[..n][1..] == s[1..][..n - 1] && s[n..] == s[1..][n - 1..];
      assert 0x100 * (Place(n - 1) * LittleEndian(s[n..])) == Place(n) * LittleEndian(s[n..]);
    }
  }

  function Store16(v: u16): (s: seq<byte>)
    ensures |s| == 2
  {
    [v % 0x100, v / 0x100]
  }

  function Load16(s: seq<byte>): u16
    requires |s| == 2
  {
    var lo: int, hi: int := s[0], s[1];
    lo + 0x100 * hi
  }

  function Store32(v: u32): (s: seq<byte>)
    ensures |s| == 4
  {
    Store16(v % 0x1_0000) + Store16(v / 0x1_0000)
  }

  function Load32(s: seq<byte>): u32
    requires |s| == 4
  {
    Load16(s[..2]) + 0x1_0000 * Load16(s[2..])
  }

  lemma LoadStore16(v: u16)
    ensures Load16(Store16(v)) == v
  {
  }

  lemma StoreLoad16(s: seq<byte>)
    requires |s| == 2
    ensures Store16(Load16(s)) == s
  {
    assert Load16(s) / 0x100 == s[1];
  }

  lemma LoadStore32(v: u32)
    ensures Load32(Store32(v)) == v
  {
    var lo, hi := Store16(v % 0x1_0000), Store16(v / 0x1_0000);
    assert Store32(v)[..2] == lo && Store32(v)[2..] == hi;
  }

  lemma StoreLoad32(s: seq<byte>)
    requires |s| == 4
    ensures Store32(Load32(s)) == s
  {
    var lo: int, hi: int := Load16(s[..2]), Load16(s[2..]);
    assert (lo + 0x1_0000 * hi) % 0x1_0000 == lo && (lo + 0x1_0000 * hi) / 0x1_0000 == hi;
    StoreLoad16(s[..2]);
    StoreLoad16(s[2..]);
    assert s[..2] + s[2..] == s;
  }

  function Store64(v: u64): (s: seq<byte>)
    ensures |s| == 8
  {
    Store32(v % 0x1_0000_0000) + Store32(v / 0x1_0000_0000)
  }

  function Load64(s: seq<byte>): u64
    requires |s| == 8
  {
    Load32(s[..4]) + 0x1_0000_0000 * Load32(s[4..])
  }

  lemma LoadStore64(v: u64)
    ensures Load64(Store64(v)) == v
  {
    hide Load32, Store32;
    var lo, hi := Store32(v % 0x1_0000_0000), Store32(v / 0x1_0000_0000);
    LoadStore32(v % 0x1_0000_0000);
    LoadStore32(v / 0x1_0000_0000);
    assert Store64(v)[..4] == lo && Store64(v)[4..] == hi;
  }

  lemma StoreLoad64(s: seq<byte>)
    requires |s| == 8
    ensures Store64(Load64(s)) == s
  {
    hide Load32, Store32;
    var lo: int, hi: int := Load32(s[..4]), Load32(s[4..]);
    assert (lo + 0x1_0000_0000 * hi) % 0x1_0000_0000 == lo && (lo + 0x1_0000_0000 * hi) / 0x1_0000_0000 == hi;
    StoreLoad32(s[..4]);
    StoreLoad32(s[4..]);
    assert s[..4] + s[4..] == s;
  }

  /** `s` with the bytes from `at` on overwritten by `bytes`. */
  function Splice(s: seq<byte>, at: nat, bytes: seq<byte>): (r: seq<byte>)
    requires at + |bytes| <= |s|
    ensures |r| == |s|
  {
    s[..at] + bytes + s[at + |bytes|..]
  }

  /** `memcpy(buffer + at, bytes, |bytes|)` */
  method Memcpy(buffer: array<byte>, at: nat, bytes: seq<byte>)
    requires at + |bytes| <= buffer.Length
    modifies buffer
    ensures buffer[..] == Splice(old(buffer[..]), at, bytes)
  {
    forall i | 0 <= i < |bytes| {
      buffer[at + i] := bytes[i];
    }
  }

  lemma SpliceWindow(s: seq<byte>, at: nat, bytes: seq<byte>)
    requires at + |bytes| <= |s|
    ensures Splice(s, at, bytes)[at..at + |bytes|] == bytes
    ensures Splice(Splice(s, at, bytes), at, s[at..at + |bytes|]) == s
  {
  }

  lemma SpliceBehind(s: seq<byte>, at: nat, bytes: seq<byte>, end: nat)
    requires at + |bytes| <= end <= |s|
    ensures Splice(s, at, bytes)[at + |bytes|..end] == s[at + |bytes|..end]
  {
  }

  lemma SpliceFront(s: seq<byte>, at: nat, bytes: seq<byte>, end: nat)
    requires at + |bytes| <= end <= |s|
    ensures Splice(s, at, bytes)[at..end] == bytes + s[at + |bytes|..end]
  {
  }

  lemma SpliceTwice(s: seq<byte>, at: nat, x: seq<byte>, y: seq<byte>)
    requires at + |x| + |y| <= |s|
    ensures Splice(Splice(s, at, x), at + |x|, y) == Splice(s, at, x + y)
  {
  }

  lemma SliceOfSlice(s: seq<byte>, a: nat, b: nat, i: nat, j: nat)
    requires a <= b <= |s| && i <= j <= b - a
    ensures s[a..b][i..j] == s[a + i..a + j]
  {
    assert forall k | 0 <= k < j - i :: s[a..b][i..j][k] == s[a..b][i + k] == s[a + i..a + j][k];
  }

  lemma SliceOfSplice(s: seq<byte>, at: nat, bytes: seq<byte>, a: nat, b: nat)
    requires a <= at && at + |bytes| <= b <= |s|
    ensures Splice(s, at, bytes)[a..b] == Splice(s[a..b], at - a, bytes)
  {
    var x, y := Splice(s, at, bytes), Splice(s[a..b], at - a, bytes);
    forall i | a <= i < b
      ensures x[i] == y[i - a]
    {
      var n := at + |bytes|;
      if i < at {
        assert x[i] == s[i] == s[a..b][i - a] == y[i - a];
      } else if i < n {
        assert x[i] == bytes[i - at] == y[i - a];
      } else {
        assert x[i] == s[i] == s[a..b][i - a] == y[i - a];
      }
    }
    assert forall i | 0 <= i < b - a :: x[a..b][i] == x[a + i];
  }
}
