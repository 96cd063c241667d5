/** `adlerChecksum` of src/utils/tools.cpp, whose modulus is taken only every
    5552 bytes, against the definition in section 8.2 of RFC 1950. */
module Adler {
  import opened Words

  const MODULUS := 65521
  const CHUNK := 5552

  function Reduce(x: int): (r: nat)
    ensures r < MODULUS
  {
    x % MODULUS
  }

  lemma ReduceAdd(x: int, y: int)
    ensures Reduce(Reduce(x) + y) == Reduce(x + y) == Reduce(x + Reduce(y))
  {
  }

  lemma ReduceSmall(x: nat)
    requires x < MODULUS
    ensures Reduce(x) == x
  {
  }

  /** The two running sums of RFC 1950, reduced after every byte. */
  datatype Sums = Sums(a: nat, b: nat) {
    function Step(v: byte): Sums {
      Sums(Reduce(a + v), Reduce(b + Reduce(a + v)))
    }
  }

  function SumsOf(s: seq<byte>): (r: Sums)
    ensures r.a < MODULUS && r.b < MODULUS
  {
    if s == [] then Sums(1, 0) else SumsOf(s[..|s| - 1]).Step(s[|s| - 1])
  }

  function Adler32(s: seq<byte>): u32 {
    var r := SumsOf(s);
    r.b * 0x1_0000 + r.a
  }

  /** The checksum field of a frame: data beyond the largest message sums to 0. */
  function Checksum(s: seq<byte>): u32 {
    if |s| > MAX_SIZE then 0 else Adler32(s)
  }

  function Total(s: seq<byte>): nat {
    if s == [] then 0 else Total(s[..|s| - 1]) + s[|s| - 1]
  }

  /** Each byte as often as it is from the end. */
  function Weighted(s: seq<byte>): nat {
    if s == [] then 0 else Weighted(s[..|s| - 1]) + Total(s)
  }

  /** The sums in closed form: 1 plus all bytes, and the sum of these sums. */
  lemma {:induction false} ClosedForm(s: seq<byte>)
    ensures SumsOf(s) == Sums(Reduce(1 + Total(s)), Reduce(|s| + Weighted(s)))
  {
    if s != [] {
      hide Reduce;
      var front, v := s[..|s| - 1], s[|s| - 1];
      ClosedForm(front);
      StepReduced(1 + Total(front), |front| + Weighted(front), v);
    } else {
      ReduceSmall(1);
      ReduceSmall(0);
    }
  }

  lemma OneStep(s: seq<byte>, n: nat, v: byte, r: Sums, next: Sums)
    requires n < |s| && s[n] == v && SumsOf(s[..n]) == r && r.Step(v) == next
    ensures SumsOf(s[..n + 1]) == next
  {
    hide SumsOf;
    OneMoreByte(s, n);
  }

  /** The checksum of "Wikipedia". */
  lemma KnownAnswer(s: seq<byte>)
    requires |s| == 9 && s[0] == 87 && s[1] == 105 && s[2] == 107 && s[3] == 105 && s[4] == 112 && s[5] == 101
    requires s[6] == 100 && s[7] == 105 && s[8] == 97
    ensures Adler32(s) == 0x11E6_0398
  {
    hide SumsOf;
    NoBytes(s[..0]);
    WikipediaSums(s);
    assert s[..9] == s;
  }

  lemma WikipediaSums(s: seq<byte>)
    requires |s| == 9 && s[0] == 87 && s[1] == 105 && s[2] == 107 && s[3] == 105 && s[4] == 112 && s[5] == 101
    requires s[6] == 100 && s[7] == 105 && s[8] == 97 && SumsOf(s[..0]) == Sums(1, 0)
    ensures SumsOf(s[..9]) == Sums(0x398, 0x11E6)
  {
    hide SumsOf;
    OneStep(s, 0, 87, Sums(1, 0), Sums(88, 88));
    OneStep(s, 1, 105, Sums(88, 88), Sums(193, 281));
    OneStep(s, 2, 107, Sums(193, 281), Sums(300, 581));
    OneStep(s, 3, 105, Sums(300, 581), Sums(405, 986));
    OneStep(s, 4, 112, Sums(405, 986), Sums(517, 1503));
    OneStep(s, 5, 101, Sums(517, 1503), Sums(618, 2121));
    OneStep(s, 6, 100, Sums(618, 2121), Sums(718, 2839));
    OneStep(s, 7, 105, Sums(718, 2839), Sums(823, 3662));
    OneStep(s, 8, 97, Sums(823, 3662), Sums(920, 4582));
  }

  lemma NoBytes(s: seq<byte>)
    requires s == []
    ensures SumsOf(s) == Sums(1, 0)
  {
  }

  /** Reducing late is as good as reducing after every byte. */
  lemma StepReduced(a: nat, b: nat, v: byte)
    ensures Sums(Reduce(a), Reduce(b)).Step(v) == Sums(Reduce(a + v), Reduce(b + a + v))
  {
    hide Reduce;
    ReduceAdd(a, v);
    ReduceAdd(b, a + v);
    ReduceAdd(b, Reduce(a + v));
    ReduceAdd(Reduce(b), a + v);
  }

  lemma OneMoreByte(s: seq<byte>, n: nat)
    requires n < |s|
    ensures SumsOf(s[..n + 1]) == SumsOf(s[..n]).Step(s[n])
  {
    assert s[..n + 1][..n] == s[..n];
  }

  /** The largest value `b` can reach `i` bytes into a chunk. */
  function SumBound(i: nat): nat {
    if i == 0 then MODULUS - 1 else SumBound(i - 1) + MODULUS - 1 + 255 * i
  }

  lemma SumBoundStart()
    ensures SumBound(0) == MODULUS - 1
  {
  }

  lemma SumBoundStep(i: nat)
    ensures SumBound(i + 1) == SumBound(i) + MODULUS - 1 + 255 * (i + 1)
  {
  }

  lemma {:induction false} SumBoundClosed(i: nat)
    ensures 2 * SumBound(i) == 2 * (MODULUS - 1) * (i + 1) + 255 * i * (i + 1)
  {
    if i > 0 {
      SumBoundClosed(i - 1);
    }
  }

  lemma {:induction false} SumBoundGrows(i: nat, j: nat)
    requires i <= j
    ensures SumBound(i) <= SumBound(j)
    decreases j
  {
    if i < j {
      SumBoundGrows(i, j - 1);
    }
  }

  /** Within a chunk neither accumulator reaches 2^32. */
  lemma NoWrap(i: nat)
    requires i <= CHUNK
    ensures SumBound(i) < 0x1_0000_0000
  {
    SumBoundGrows(i, CHUNK);
    SumBoundClosed(CHUNK);
  }

  /** `adlerChecksum(data, |data|)`, with the accumulators kept in 32 bits. */
  method AdlerChecksum(data: seq<byte>) returns (checksum: u32)
    ensures checksum == Checksum(data)
  {
    hide Reduce, SumBound;
    if |data| > MAX_SIZE {
      return 0;
    }
    var a: u32, b: u32 := 1, 0;
    SumBoundStart();
    var length: nat, pos: nat := |data|, 0;
    while length > 0
      invariant pos + length == |data|
      invariant Sums(a, b) == SumsOf(data[..pos])
    {
      var tmp: nat := if length > CHUNK then CHUNK else length;
      length := length - tmp;
      ghost var start := pos;
      ReduceSmall(a);
      ReduceSmall(b);
      while tmp > 0
        invariant pos + tmp + length == |data| && start <= pos && pos - start + tmp <= CHUNK
        invariant a < MODULUS + 255 * (pos - start) && b <= SumBound(pos - start)
        invariant Sums(Reduce(a), Reduce(b)) == SumsOf(data[..pos])
      {
        NoWrap(pos - start + 1);
        SumBoundStep(pos - start);
        OneMoreByte(data, pos);
        StepReduced(a, b, data[pos]);
        a := Add32(a, data[pos]);
        b := Add32(b, a);
        pos, tmp := pos + 1, tmp - 1;
      }
      a, b := Reduce(a), Reduce(b);
    }
    assert data[..pos] == data;
    checksum := b * 0x1_0000 + a;
  }

  /** A change to one byte always shows in the checksum. */
  lemma OneByteChangeDetected(s: seq<byte>, i: nat, v: byte)
    requires i < |s| <= MAX_SIZE && s[i] != v
    ensures Checksum(s[i := v]) != Checksum(s)
  {
    hide Reduce, SumsOf;
    ChangeCarries(s, i, v);
    ChangeShows(SumsOf(s).a, v - s[i]);
  }

  lemma ChangeShows(a: nat, d: int)
    requires a < MODULUS && -0x100 < d < 0x100 && d != 0
    ensures Reduce(a + d) != a
  {
    assert a + d == Reduce(a + d) || a + d == Reduce(a + d) + MODULUS || a + d == Reduce(a + d) - MODULUS;
  }

  lemma {:induction false} ChangeCarries(s: seq<byte>, i: nat, v: byte)
    requires i < |s|
    ensures SumsOf(s[i := v]).a == Reduce(SumsOf(s).a + (v - s[i]))
  {
    hide Reduce;
    var n := |s| - 1;
    var p := SumsOf(s[..n]).a;
    if i < n {
      assert s[i := v][..n] == s[..n][i := v];
      ChangeCarries(s[..n], i, v);
      ReduceAdd(p + (v - s[i]), s[n]);
      ReduceAdd(p + s[n], v - s[i]);
    } else {
      assert s[i := v][..n] == s[..n];
      ReduceAdd(p + s[n], v - s[n]);
    }
  }
}
