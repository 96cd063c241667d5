/** The UTF-8 assembly of lib/json.lua: `codepoint_to_utf8` and
    `parse_unicode_escape`. A Lua string is a string of characters below 256;
    each stands for one byte. */
module Utf8 {

  const MAX_CODEPOINT := 0x10FFFF

  datatype Bytes = Bytes(s: string) | Invalid

  function Byte(n: nat): (c: char)
    requires n < 0x100
    ensures c as int == n
  {
    n as char
  }

  function CodepointToUtf8(n: nat): Bytes {
    if n <= 0x7F then Bytes([Byte(n)])
    else if n <= 0x7FF then Bytes([Byte(n / 64 + 192), Byte(n % 64 + 128)])
    else if n <= 0xFFFF then Bytes([Byte(n / 4096 + 224), Byte(n % 4096 / 64 + 128), Byte(n % 64 + 128)])
    else if n <= MAX_CODEPOINT then
      Bytes([Byte(n / 262144 + 240), Byte(n % 262144 / 4096 + 128), Byte(n % 4096 / 64 + 128), Byte(n % 64 + 128)])
    else Invalid
  }

  /** A continuation byte of section 3 of RFC 3629, `10xxxxxx`. */
  predicate Continuation(c: char) {
    0x80 <= c as int < 0xC0
  }

  /** The number in a sequence of one to four octets that has one of the four
      forms and is not longer than necessary, -1 otherwise. */
  function Assembled(s: string): int {
    if |s| == 1 && s[0] as int < 0x80 then s[0] as int
    else if |s| == 2 && 0xC0 <= s[0] as int < 0xE0 && Continuation(s[1]) then
      AtLeast(0x80, Shifted(s[0] as int - 0xC0, s[1]))
    else if |s| == 3 && 0xE0 <= s[0] as int < 0xF0 && Continuation(s[1]) && Continuation(s[2]) then
      AtLeast(0x800, Shifted(Shifted(s[0] as int - 0xE0, s[1]), s[2]))
    else if |s| == 4 && 0xF0 <= s[0] as int < 0xF8 && Continuation(s[1]) && Continuation(s[2])
        && Continuation(s[3]) then
      AtLeast(0x10000, Shifted(Shifted(Shifted(s[0] as int - 0xF0, s[1]), s[2]), s[3]))
    else -1
  }

  function Shifted(n: int, c: char): int {
    n * 64 + (c as int - 0x80)
  }

  function AtLeast(least: int, n: int): int {
    if n < least then -1 else n
  }

  predicate Surrogate(n: int) {
    0xD800 <= n <= 0xDFFF
  }

  /** The characters that UTF-8 can encode: up to 10FFFF, and no surrogates. */
  predicate IsCharacter(n: int) {
    0 <= n <= MAX_CODEPOINT && !Surrogate(n)
  }

  /** The character that section 3 of RFC 3629 reads off a sequence of octets,
      -1 if it is not valid UTF-8. */
  function Decoded(s: string): int {
    if IsCharacter(Assembled(s)) then Assembled(s) else -1
  }

  /** Every number up to 10FFFF is put into octets, and anything beyond is
      refused. The octets are UTF-8, and then that of the number, if and only if
      the number is no surrogate. */
  lemma Utf8RoundTrip(n: nat)
    ensures match CodepointToUtf8(n)
            case Bytes(s) => n <= MAX_CODEPOINT && Decoded(s) == if Surrogate(n) then -1 else n
            case Invalid => n > MAX_CODEPOINT
  {
    OctetsAssembled(n);
  }

  lemma OctetsAssembled(n: nat)
    ensures match CodepointToUtf8(n)
            case Bytes(s) => n <= MAX_CODEPOINT && Assembled(s) == n
            case Invalid => n > MAX_CODEPOINT
  {
    if 0x800 <= n <= 0xFFFF {
      LowBits(n);
    } else if 0x10000 <= n <= MAX_CODEPOINT {
      LowBits(n);
      HighBits(n);
    }
  }

  lemma LowBits(n: nat)
    ensures n == (n / 4096 * 64 + n % 4096 / 64) * 64 + n % 64
  {
    var q, r := n / 4096, n % 4096;
    assert n == 4096 * q + r;
    SameLowBits(q, r);
  }

  lemma SameLowBits(q: nat, r: nat)
    ensures (4096 * q + r) % 64 == r % 64 == r - r / 64 * 64
  {
    assert 4096 * q + r == 64 * (64 * q + r / 64) + r % 64;
  }

  lemma HighBits(n: nat)
    ensures n / 4096 == n / 262144 * 64 + n % 262144 / 4096
  {
    var r := n % 262144;
    assert n == 262144 * (n / 262144) + r && r == 4096 * (r / 4096) + r % 4096;
    assert n == 4096 * (64 * (n / 262144) + r / 4096) + r % 4096;
  }

  function HexValue(c: char): (v: int)
    ensures -1 <= v < 16
  {
    if '0' <= c <= '9' then c as int - '0' as int
    else if 'a' <= c <= 'f' then c as int - 'a' as int + 10
    else if 'A' <= c <= 'F' then c as int - 'A' as int + 10
    else -1
  }

  /** The digits of both cases, and no other character. */
  lemma HexDigits(c: char, v: nat)
    requires v < 16
    ensures HexValue(c) == v <==> c == "0123456789abcdef"[v] || c == "0123456789ABCDEF"[v]
  {
    assert v < 10 ==> "0123456789abcdef"[v] == '0' + v as char;
  }

  /** `%x` */
  predicate IsHex(c: char) {
    HexValue(c) >= 0
  }

  predicate AllHex(s: string) {
    forall i | 0 <= i < |s| :: IsHex(s[i])
  }

  /** `tonumber(s, 16)` on hexadecimal digits */
  function HexNumber(s: string): (n: nat)
    requires AllHex(s)
  {
    if s == [] then 0 else 16 * HexNumber(s[..|s| - 1]) + HexValue(s[|s| - 1])
  }

  lemma FourHexDigits(s: string)
    requires |s| == 4 && AllHex(s)
    ensures HexNumber(s) == ((HexValue(s[0]) * 16 + HexValue(s[1])) * 16 + HexValue(s[2])) * 16 + HexValue(s[3])
    ensures HexNumber(s) <= 0xFFFF
  {
    hide HexValue;
    var a, b, c := s[..3], s[..2], s[..1];
    assert a[..2] == b && b[..1] == c && c[..0] == [];
    assert HexNumber(s) == 16 * HexNumber(a) + HexValue(s[3]);
    assert HexNumber(a) == 16 * HexNumber(b) + HexValue(s[2]);
    assert HexNumber(b) == 16 * HexNumber(c) + HexValue(s[1]);
    assert HexNumber(c) == 16 * HexNumber([]) + HexValue(s[0]);
  }

  /** What the patterns of `parse_string` match behind `\u`: the first half of
      a surrogate pair with any second escape, or else four digits. */
  predicate PairPattern(s: string) {
    && |s| == 10 && AllHex(s[..4]) && (s[0] == 'd' || s[0] == 'D')
    && (s[1] == '8' || s[1] == '9' || s[1] == 'a' || s[1] == 'A' || s[1] == 'b' || s[1] == 'B')
    && s[4] == '\\' && s[5] == 'u' && AllHex(s[6..])
  }

  predicate SinglePattern(s: string) {
    |s| == 4 && AllHex(s)
  }

  /** The number that two escapes are combined to. */
  function PairNumber(hex: string): nat
    requires PairPattern(hex)
  {
    FourHexDigits(hex[..4]);
    FourHexDigits(hex[6..]);
    FirstHalf(hex);
    (HexNumber(hex[..4]) - 0xD800) * 0x400 + (HexNumber(hex[6..]) - 0xDC00) + 0x10000
  }

  function ParseUnicodeEscape(hex: string): Bytes
    requires PairPattern(hex) || SinglePattern(hex)
  {
    CodepointToUtf8(if PairPattern(hex) then PairNumber(hex) else HexNumber(hex))
  }

  /** The pair pattern admits exactly the high surrogates first. */
  lemma FirstHalf(s: string)
    requires PairPattern(s)
    ensures 0xD800 <= HexNumber(s[..4]) <= 0xDBFF
  {
    FourHexDigits(s[..4]);
  }

  predicate LowSurrogate(n: nat) {
    0xDC00 <= n <= 0xDFFF
  }

  /** The UTF-16 halves of a code point beyond the basic plane. */
  function HighHalf(u: nat): nat
    requires 0x10000 <= u <= MAX_CODEPOINT
  {
    0xD800 + (u - 0x10000) / 0x400
  }

  function LowHalf(u: nat): nat
    requires 0x10000 <= u <= MAX_CODEPOINT
  {
    0xDC00 + (u - 0x10000) % 0x400
  }

  /** A pair of escapes that are the UTF-16 halves of a code point becomes the
      UTF-8 of that code point, and this happens for no other second half. */
  lemma SurrogatePair(hex: string, u: nat)
    requires PairPattern(hex) && 0x10000 <= u <= MAX_CODEPOINT
    requires HexNumber(hex[..4]) == HighHalf(u)
    ensures ParseUnicodeEscape(hex) == CodepointToUtf8(u) <==> HexNumber(hex[6..]) == LowHalf(u)
  {
    hide CodepointToUtf8, Assembled, HexNumber;
    FourHexDigits(hex[6..]);
    OctetsAssembled(PairNumber(hex));
    OctetsAssembled(u);
    assert u == 0x10000 + (u - 0x10000) / 0x400 * 0x400 + (u - 0x10000) % 0x400;
  }

  /** A pair of escapes becomes the UTF-8 of the code point whose UTF-16 halves
      they are if and only if the second is a low surrogate. */
  lemma LowSurrogatesPair(hex: string)
    requires PairPattern(hex)
    ensures LowSurrogate(HexNumber(hex[6..])) <==>
            exists u :: 0x10000 <= u <= MAX_CODEPOINT && HexNumber(hex[..4]) == HighHalf(u)
                        && HexNumber(hex[6..]) == LowHalf(u) && ParseUnicodeEscape(hex) == CodepointToUtf8(u)
  {
    hide CodepointToUtf8, HexNumber, AllHex;
    FirstHalf(hex);
    if LowSurrogate(HexNumber(hex[6..])) {
      var u := PairNumber(hex);
      assert HexNumber(hex[..4]) == HighHalf(u) && HexNumber(hex[6..]) == LowHalf(u);
      SurrogatePair(hex, u);
    }
  }

  /** The pattern does not look at the second half's range: a high surrogate
      followed by an ordinary escape comes out as another character. */
  lemma UnpairedSurrogate()
    ensures PairPattern("D800\\u0041") && ParseUnicodeEscape("D800\\u0041") == CodepointToUtf8(0x2441)
  {
    var s := "D800\\u0041";
    assert s[..4] == "D800" && s[6..] == "0041";
    FourHexDigits("D800");
    FourHexDigits("0041");
  }

  /** An accepted pair is refused later on if and only if its second half is too
      large for the first; otherwise it becomes UTF-8 if and only if the number
      it combines to is no surrogate. */
  lemma PairOutcome(hex: string)
    requires PairPattern(hex)
    ensures var h, l, r := HexNumber(hex[..4]), HexNumber(hex[6..]), ParseUnicodeEscape(hex);
            && (r == Invalid <==> l >= 0xDC00 + (0xDC00 - h) * 0x400)
            && (r.Bytes? ==> Decoded(r.s) == if Surrogate(PairNumber(hex)) then -1 else PairNumber(hex))
  {
    hide CodepointToUtf8, Decoded, HexNumber, AllHex;
    Utf8RoundTrip(PairNumber(hex));
  }

  /** A pair can even combine to a surrogate, which is not UTF-8. */
  lemma PairToSurrogate()
    ensures PairPattern("D800\\uB400") && PairNumber("D800\\uB400") == 0xD800
    ensures ParseUnicodeEscape("D800\\uB400") == Bytes([0xED as char, 0xA0 as char, 0x80 as char])
    ensures Decoded([0xED as char, 0xA0 as char, 0x80 as char]) == -1
  {
    var s := "D800\\uB400";
    assert s[..4] == "D800" && s[6..] == "B400";
    FourHexDigits("D800");
    FourHexDigits("B400");
  }

  /** The highest pair there is, is beyond 10FFFF. */
  lemma OutOfRangePair()
    ensures PairPattern("DBFF\\uFFFF") && ParseUnicodeEscape("DBFF\\uFFFF") == Invalid
  {
    var s := "DBFF\\uFFFF";
    assert s[..4] == "DBFF" && s[6..] == "FFFF";
    FourHexDigits("DBFF");
    FourHexDigits("FFFF");
  }

  /** A single escape is always accepted, and becomes UTF-8, then that of the
      number it names, if and only if that number is no surrogate. */
  lemma SingleEscape(hex: string)
    requires SinglePattern(hex)
    ensures ParseUnicodeEscape(hex).Bytes?
    ensures Decoded(ParseUnicodeEscape(hex).s) == if Surrogate(HexNumber(hex)) then -1 else HexNumber(hex)
  {
    hide Decoded, CodepointToUtf8;
    FourHexDigits(hex);
    Utf8RoundTrip(HexNumber(hex));
  }

  /** A surrogate on its own becomes three octets that are not UTF-8. */
  lemma LoneSurrogate()
    ensures SinglePattern("D800")
    ensures ParseUnicodeEscape("D800") == Bytes([0xED as char, 0xA0 as char, 0x80 as char])
    ensures Decoded([0xED as char, 0xA0 as char, 0x80 as char]) == -1
  {
    FourHexDigits("D800");
  }
}
