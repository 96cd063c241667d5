/** The Lua values that lib/json.lua reads and writes, and the decimal text of
    integers. A Lua string is a string of characters. */
module JsonValues {

  /** An integer, or whatever else `tonumber` makes of a text. */
  datatype Number = Integer(n: int) | OtherNumber(text: string)

  datatype Key = Index(i: int) | Name(s: string)

  datatype Value = Nil | Bool(b: bool) | Num(n: Number) | Str(s: string) | Table(m: map<Key, Value>)

  /** `t[k] = v`; assigning nil removes the key. */
  function Put(m: map<Key, Value>, k: Key, v: Value): map<Key, Value> {
    if v == Nil then m - {k} else m[k := v]
  }

  /** Integers that `%.14g` prints digit by digit. */
  type SmallInt = n: int | -100_000_000_000_000 < n < 100_000_000_000_000

  function Digits(n: nat): (s: string)
    ensures |s| >= 1 && IsDigits(s)
  {
    if n < 10 then [DigitChar(n)] else Digits(n / 10) + [DigitChar(n % 10)]
  }

  function DigitChar(d: nat): (c: char)
    requires d < 10
    ensures '0' <= c <= '9'
  {
    '0' + d as char
  }

  predicate IsDigits(s: string) {
    forall i | 0 <= i < |s| :: '0' <= s[i] <= '9'
  }

  function DigitsValue(s: string): nat
    requires IsDigits(s)
  {
    if s == [] then 0 else 10 * DigitsValue(s[..|s| - 1]) + (s[|s| - 1] - '0') as nat
  }

  lemma {:induction false} DigitsRoundTrip(n: nat)
    ensures DigitsValue(Digits(n)) == n
  {
    var s := Digits(n);
    if n >= 10 {
      DigitsRoundTrip(n / 10);
      assert s[..|s| - 1] == Digits(n / 10);
    } else {
      assert s[..0] == [];
    }
  }

  function Power10(k: nat): nat {
    if k == 0 then 1 else 10 * Power10(k - 1)
  }

  lemma {:induction false} DigitCount(n: nat, k: nat)
    requires k >= 1 && n < Power10(k)
    ensures |Digits(n)| <= k
  {
    if n >= 10 {
      DigitCount(n / 10, k - 1);
    }
  }

  /** `string.format('%.14g', n)` */
  function Decimal(n: SmallInt): string {
    if n < 0 then "-" + Digits(-n) else Digits(n)
  }

  /** An optional minus sign and one to fourteen digits. */
  predicate IsSmallInteger(s: string) {
    var digits := if |s| > 0 && s[0] == '-' then s[1..] else s;
    1 <= |digits| <= 14 && IsDigits(digits)
  }

  /** `tonumber(s)`: exact on small integers; on any other text, `other` tells
      whether it is a number. */
  function ToNumber(s: string, other: string -> bool): Value {
    if IsSmallInteger(s) then
      Num(Integer(if s[0] == '-' then 0 - DigitsValue(s[1..]) else DigitsValue(s)))
    else if other(s) then Num(OtherNumber(s))
    else Nil
  }

  lemma DecimalRoundTrip(n: SmallInt, other: string -> bool)
    ensures ToNumber(Decimal(n), other) == Num(Integer(n))
  {
    var m: nat := if n < 0 then -n else n;
    assert Power10(14) == 100_000_000_000_000;
    DigitCount(m, 14);
    DigitsRoundTrip(m);
    if n < 0 {
      assert Decimal(n)[1..] == Digits(m);
    }
  }

  /** Digits stand for tens, hundreds and so on by their place. */
  lemma {:induction false} DigitsByPlace(a: string, b: string)
    requires IsDigits(a) && IsDigits(b)
    ensures IsDigits(a + b) && DigitsValue(a + b) == DigitsValue(a) * Power10(|b|) + DigitsValue(b)
  {
    if b == [] {
      assert a + b == a;
    } else {
      var n := |b| - 1;
      DigitsByPlace(a, b[..n]);
      LastDigit(a + b);
      LastDigit(b);
      assert (a + b)[..|a| + n] == a + b[..n];
      TimesTen(DigitsValue(a), Power10(n), DigitsValue(b[..n]));
    }
  }

  lemma LastDigit(s: string)
    requires s != "" && IsDigits(s)
    ensures DigitsValue(s) == 10 * DigitsValue(s[..|s| - 1]) + (s[|s| - 1] - '0') as nat
  {
  }

  lemma TimesTen(x: nat, y: nat, z: nat)
    ensures 10 * (x * y + z) == x * (10 * y) + 10 * z
  {
  }

  /** One digit. */
  lemma DigitIs(d: nat)
    requires d < 10
    ensures DigitsValue(["0123456789"[d]]) == d && Digits(d) == ["0123456789"[d]]
  {
    assert ["0123456789"[d]][..0] == [];
  }

  lemma DecimalExamples()
    ensures Decimal(1) == "1" && Decimal(-20) == "-20" && Decimal(0) == "0" && Decimal(1905) == "1905"
  {
    assert Digits(20) == Digits(2) + Digits(0);
    assert Digits(1905) == Digits(190) + Digits(5) && Digits(190) == Digits(19) + Digits(0);
  }
}
