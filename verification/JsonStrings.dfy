/** The strings that lib/json.lua reads, as a grammar: which texts are strings,
    and what each says. */
module JsonStrings {
  import opened JsonParser
  import opened JsonRoundTrip
  import opened JsonText
  import opened Utf8

  /** A piece of a string: a character for itself, a short escape, or `\u` and
      four digits. */
  datatype Piece = Itself(c: char) | Short(e: char) | Unicode(hex: string)

  type Item = x: Piece | ItemOk(x) witness Itself('a')

  predicate ItemOk(x: Piece) {
    match x
    case Itself(c) => c as int >= 32 && c != '\"' && c != '\\'
    case Short(e) => ShortNumber(e) >= 0
    case Unicode(hex) => SinglePattern(hex)
  }

  /** The number of the character a short escape stands for, -1 if there is no
      such escape. */
  function ShortNumber(e: char): int {
    if e == '\"' || e == '\\' || e == '/' then e as int
    else if e == 'b' then 8
    else if e == 't' then 9
    else if e == 'n' then 10
    else if e == 'f' then 12
    else if e == 'r' then 13
    else -1
  }

  function Spelled(x: Item): string {
    match x
    case Itself(c) => [c]
    case Short(e) => ['\\', e]
    case Unicode(hex) => ['\\', 'u'] + hex
  }

  function SpelledAll(xs: seq<Item>): string {
    if xs == [] then [] else Spelled(xs[0]) + SpelledAll(xs[1..])
  }

  predicate HighSurrogate(n: nat) {
    0xD800 <= n <= 0xDBFF
  }

  /** A high surrogate takes the next escape with it, whatever its number. */
  predicate StartsPair(xs: seq<Item>) {
    |xs| >= 2 && xs[0].Unicode? && xs[1].Unicode? && HighSurrogate(HexNumber(xs[0].hex))
  }

  /** The number of a pair of escapes. */
  function Combined(high: nat, low: nat): nat
    requires HighSurrogate(high)
  {
    0x10000 + (high - 0xD800) * 0x400 + low - 0xDC00
  }

  function Octets(x: Item): Bytes {
    match x
    case Itself(c) => Bytes([c])
    case Short(e) => Bytes([ShortNumber(e) as char])
    case Unicode(hex) => CodepointToUtf8(HexNumber(hex))
  }

  /** What a sequence of pieces says. */
  function Said(xs: seq<Item>): Bytes {
    if xs == [] then Bytes("")
    else if StartsPair(xs) then
      Joined(CodepointToUtf8(Combined(HexNumber(xs[0].hex), HexNumber(xs[1].hex))), Said(xs[2..]))
    else Joined(Octets(xs[0]), Said(xs[1..]))
  }

  function Joined(a: Bytes, b: Bytes): Bytes {
    if a.Bytes? && b.Bytes? then Bytes(a.s + b.s) else Invalid
  }

  /** `\u` and four digits stand at position `j`. */
  predicate UnicodeAt(s: string, j: nat) {
    At(s, j, '\\') && At(s, j + 1, 'u') && j + 6 <= |s| && SinglePattern(s[j + 2..j + 6])
  }

  function NumberAt(s: string, j: nat): nat
    requires UnicodeAt(s, j)
  {
    HexNumber(s[j + 2..j + 6])
  }

  lemma HighDigits(hex: string)
    requires SinglePattern(hex)
    ensures HighSurrogate(HexNumber(hex)) <==> hex[0] in "dD" && hex[1] in "89aAbB"
  {
    hide HexNumber;
    FourHexDigits(hex);
  }

  /** The pair pattern, in terms of numbers. */
  lemma PairAt(s: string, j: nat)
    requires UnicodeAt(s, j)
    ensures j + 12 <= |s| && PairPattern(s[j + 2..j + 12]) <==>
            HighSurrogate(NumberAt(s, j)) && UnicodeAt(s, j + 6)
    ensures HexAt(s, j + 2) ==
            if HighSurrogate(NumberAt(s, j)) && UnicodeAt(s, j + 6) then s[j + 2..j + 12] else s[j + 2..j + 6]
  {
    hide HexNumber, AllHex;
    HighDigits(s[j + 2..j + 6]);
    if j + 12 <= |s| {
      var hex := s[j + 2..j + 12];
      assert hex[..4] == s[j + 2..j + 6] && hex[6..] == s[j + 8..j + 12];
      assert hex[0] == s[j + 2] == hex[..4][0] && hex[1] == hex[..4][1];
      assert hex[4] == s[j + 6] && hex[5] == s[j + 7];
    }
  }

  /** A high surrogate and the escape behind it are read together. */
  lemma PairStep(s: string, start: nat, j: nat, res: string)
    requires UnicodeAt(s, j) && HighSurrogate(NumberAt(s, j)) && UnicodeAt(s, j + 6)
    ensures StringFrom(s, start, j, res) ==
            match CodepointToUtf8(Combined(NumberAt(s, j), NumberAt(s, j + 6)))
            case Bytes(b) => StringFrom(s, start, j + 12, res + b)
            case Invalid => Bad(j)
  {
    hide HexAt, HexNumber, AllHex, CodepointToUtf8;
    PairAt(s, j);
    var hex := s[j + 2..j + 12];
    assert hex[..4] == s[j + 2..j + 6] && hex[6..] == s[j + 8..j + 12];
    assert ParseUnicodeEscape(hex) == CodepointToUtf8(Combined(NumberAt(s, j), NumberAt(s, j + 6)));
  }

  /** Any other escape of this kind is read on its own. */
  lemma SingleStep(s: string, start: nat, j: nat, res: string)
    requires UnicodeAt(s, j) && !(HighSurrogate(NumberAt(s, j)) && UnicodeAt(s, j + 6))
    ensures CodepointToUtf8(NumberAt(s, j)).Bytes?
    ensures StringFrom(s, start, j, res) == StringFrom(s, start, j + 6, res + CodepointToUtf8(NumberAt(s, j)).s)
  {
    hide HexAt, HexNumber, AllHex, CodepointToUtf8;
    PairAt(s, j);
    SingleEscape(s[j + 2..j + 6]);
  }

  lemma ShortStep(s: string, start: nat, j: nat, res: string)
    requires At(s, j, '\\') && j + 1 < |s| && ShortNumber(s[j + 1]) >= 0
    ensures StringFrom(s, start, j, res) == StringFrom(s, start, j + 2, res + [ShortNumber(s[j + 1]) as char])
  {
  }

  lemma ItselfStep(s: string, start: nat, j: nat, res: string)
    requires j < |s| && s[j] as int >= 32 && s[j] != '\"' && s[j] != '\\'
    ensures StringFrom(s, start, j, res) == StringFrom(s, start, j + 1, res + [s[j]])
  {
  }

  /** Two escapes that are the UTF-16 halves of a code point are read as its
      UTF-8, and reading goes on behind both. */
  lemma HalvesRead(s: string, start: nat, j: nat, res: string, u: nat)
    requires 0x10000 <= u <= MAX_CODEPOINT && UnicodeAt(s, j) && UnicodeAt(s, j + 6)
    requires NumberAt(s, j) == HighHalf(u) && NumberAt(s, j + 6) == LowHalf(u)
    ensures CodepointToUtf8(u).Bytes?
    ensures StringFrom(s, start, j, res) == StringFrom(s, start, j + 12, res + CodepointToUtf8(u).s)
  {
    hide CodepointToUtf8, UnicodeAt, NumberAt;
    Halves(u);
    Utf8RoundTrip(u);
    PairStep(s, start, j, res);
  }

  /** The halves of a code point beyond the basic plane are a high and a low
      surrogate, and no other two have its number. */
  lemma Halves(u: nat)
    requires 0x10000 <= u <= MAX_CODEPOINT
    ensures HighSurrogate(HighHalf(u)) && LowSurrogate(LowHalf(u)) && Combined(HighHalf(u), LowHalf(u)) == u
    ensures forall h: nat, l: nat | HighSurrogate(h) && LowSurrogate(l) && Combined(h, l) == u ::
              h == HighHalf(u) && l == LowHalf(u)
  {
  }

  /** A string of two such escapes and nothing else says the code point. */
  lemma HalvesString(s: string, i: nat, u: nat)
    requires 0x10000 <= u <= MAX_CODEPOINT && UnicodeAt(s, i + 1) && UnicodeAt(s, i + 7) && At(s, i + 13, '\"')
    requires NumberAt(s, i + 1) == HighHalf(u) && NumberAt(s, i + 7) == LowHalf(u)
    ensures CodepointToUtf8(u).Bytes? && ParseString(s, i) == Good(CodepointToUtf8(u).s, i + 14)
  {
    hide CodepointToUtf8, UnicodeAt, NumberAt;
    HalvesRead(s, i, i + 1, "", u);
    assert "" + CodepointToUtf8(u).s == CodepointToUtf8(u).s;
  }

  /** U+1F600, as section 7 of RFC 8259 writes characters outside the basic
      plane. */
  lemma Grinning()
    ensures ParseString("\"\\ud83d\\ude00\"", 0) == Good([0xF0 as char, 0x9F as char, 0x98 as char, 0x80 as char], 14)
  {
    hide StringFrom;
    var s := "\"\\ud83d\\ude00\"";
    assert s[3..7] == "d83d" && s[9..13] == "de00";
    FourHexDigits("d83d");
    FourHexDigits("de00");
    HalvesString(s, 0, 0x1F600);
  }

  lemma HasAt(s: string, j: nat, text: string)
    requires Has(s, j, text)
    ensures forall k | 0 <= k < |text| :: s[j + k] == text[k]
  {
    assert forall k | 0 <= k < |text| :: text[k] == s[j + k];
  }

  lemma UnicodeHere(s: string, j: nat, hex: string)
    requires SinglePattern(hex) && Has(s, j, Spelled(Unicode(hex)))
    ensures UnicodeAt(s, j) && NumberAt(s, j) == HexNumber(hex)
  {
    var text := Spelled(Unicode(hex));
    HasAt(s, j, text);
    assert s[j + 2..j + 6] == hex;
  }

  /** What follows a piece that is no escape with digits does not look like
      one. */
  lemma NoUnicodeHere(s: string, j: nat, xs: seq<Item>)
    requires Has(s, j, SpelledAll(xs) + "\"") && !(xs != [] && xs[0].Unicode?)
    ensures !UnicodeAt(s, j)
  {
    HasAt(s, j, SpelledAll(xs) + "\"");
  }

  lemma ItemParts(s: string, j: nat, xs: seq<Item>)
    requires xs != [] && Has(s, j, SpelledAll(xs) + "\"")
    ensures Has(s, j, Spelled(xs[0])) && Has(s, j + |Spelled(xs[0])|, SpelledAll(xs[1..]) + "\"")
    ensures |SpelledAll(xs)| == |Spelled(xs[0])| + |SpelledAll(xs[1..])|
  {
    hide Spelled, Has;
    assert SpelledAll(xs) + "\"" == Spelled(xs[0]) + (SpelledAll(xs[1..]) + "\"");
    HasParts(s, j, Spelled(xs[0]), SpelledAll(xs[1..]) + "\"");
  }

  /** Every sequence of pieces that says something is read as what it says. */
  lemma {:induction false} Understood(s: string, start: nat, j: nat, res: string, xs: seq<Item>)
    requires Has(s, j, SpelledAll(xs) + "\"") && Said(xs).Bytes?
    ensures StringFrom(s, start, j, res) == Good(res + Said(xs).s, j + |SpelledAll(xs)| + 1)
    decreases |xs|
  {
    hide Has, StringFrom, CodepointToUtf8, HexNumber, SpelledAll, NumberAt, UnicodeAt;
    if xs == [] {
      EndStep(s, start, j, res);
    } else {
      ItemParts(s, j, xs);
      if StartsPair(xs) {
        ItemParts(s, j + 6, xs[1..]);
        assert xs[1..][1..] == xs[2..];
        PieceStep(s, start, j, res, xs);
        var b := CodepointToUtf8(Combined(HexNumber(xs[0].hex), HexNumber(xs[1].hex))).s;
        Understood(s, start, j + 12, res + b, xs[2..]);
        assert (res + b) + Said(xs[2..]).s == res + (b + Said(xs[2..]).s);
      } else {
        PieceStep(s, start, j, res, xs);
        var b := Octets(xs[0]).s;
        Understood(s, start, j + |Spelled(xs[0])|, res + b, xs[1..]);
        assert (res + b) + Said(xs[1..]).s == res + (b + Said(xs[1..]).s);
      }
    }
  }

  lemma EndStep(s: string, start: nat, j: nat, res: string)
    requires Has(s, j, SpelledAll([]) + "\"")
    ensures StringFrom(s, start, j, res) == Good(res + "", j + |SpelledAll([])| + 1)
  {
    assert SpelledAll([]) + "\"" == "\"";
    HasAt(s, j, "\"");
    assert res + "" == res;
  }

  /** One turn of the loop, by the next piece. */
  lemma PieceStep(s: string, start: nat, j: nat, res: string, xs: seq<Item>)
    requires xs != [] && Has(s, j, Spelled(xs[0]))
    requires StartsPair(xs) ==> Has(s, j + 6, Spelled(xs[1]))
    requires !StartsPair(xs) ==> Has(s, j + |Spelled(xs[0])|, SpelledAll(xs[1..]) + "\"")
    ensures StartsPair(xs) ==>
              StringFrom(s, start, j, res) ==
              match CodepointToUtf8(Combined(HexNumber(xs[0].hex), HexNumber(xs[1].hex)))
              case Bytes(b) => StringFrom(s, start, j + 12, res + b)
              case Invalid => Bad(j)
    ensures !StartsPair(xs) ==>
              Octets(xs[0]).Bytes? &&
              StringFrom(s, start, j, res) == StringFrom(s, start, j + |Spelled(xs[0])|, res + Octets(xs[0]).s)
  {
    hide StringFrom, CodepointToUtf8, HexNumber, SpelledAll, NumberAt, UnicodeAt;
    match xs[0]
    case Itself(c) =>
      HasAt(s, j, Spelled(xs[0]));
      ItselfStep(s, start, j, res);
    case Short(e) =>
      HasAt(s, j, Spelled(xs[0]));
      ShortStep(s, start, j, res);
    case Unicode(hex) =>
      UnicodeHere(s, j, hex);
      if StartsPair(xs) {
        UnicodeHere(s, j + 6, xs[1].hex);
        PairStep(s, start, j, res);
      } else {
        if |xs| >= 2 && xs[1].Unicode? {
        } else {
          NoUnicodeHere(s, j + 6, xs[1..]);
        }
        SingleStep(s, start, j, res);
      }
  }

  lemma HasBoth(s: string, i: nat, a: string, b: string)
    requires Has(s, i, a) && Has(s, i + |a|, b)
    ensures Has(s, i, a + b)
  {
    HasAt(s, i, a);
    HasAt(s, i + |a|, b);
    assert s[i..i + |a + b|] == a + b;
  }

  lemma Prepended(s: string, j: nat, x: Item, xs: seq<Item>)
    requires Has(s, j, Spelled(x)) && Has(s, j + |Spelled(x)|, SpelledAll(xs) + "\"")
    ensures Has(s, j, SpelledAll([x] + xs) + "\"") && |SpelledAll([x] + xs)| == |Spelled(x)| + |SpelledAll(xs)|
  {
    hide Has, Spelled;
    assert ([x] + xs)[1..] == xs;
    HasBoth(s, j, Spelled(x), SpelledAll(xs) + "\"");
    assert Spelled(x) + (SpelledAll(xs) + "\"") == SpelledAll([x] + xs) + "\"";
  }

  lemma EscapeHas(s: string, start: nat, j: nat, res: string)
    requires StringFrom(s, start, j, res).Good?
    requires At(s, j, '\\') && At(s, j + 1, 'u')
    ensures UnicodeAt(s, j)
  {
    hide HexNumber, CodepointToUtf8;
    var hex := HexAt(s, j + 2);
    assert hex != "";
    if PairPattern(hex) {
      assert hex[..4] == s[j + 2..j + 6];
    }
  }

  /** Every string that is read is spelled by pieces, and says what they say. */
  lemma {:induction false} Spelling(s: string, start: nat, j: nat, res: string) returns (xs: seq<Item>)
    requires StringFrom(s, start, j, res).Good?
    ensures Has(s, j, SpelledAll(xs) + "\"") && Said(xs).Bytes?
    ensures StringFrom(s, start, j, res) == Good(res + Said(xs).s, j + |SpelledAll(xs)| + 1)
    decreases |s| - j
  {
    hide Has, CodepointToUtf8, HexNumber, SpelledAll, NumberAt, UnicodeAt, HexAt, ParseUnicodeEscape, Said, Spelled;
    if s[j] == '\"' {
      xs := [];
      EndHas(s, j);
      Said0();
      assert res + "" == res;
    } else if At(s, j, '\\') && At(s, j + 1, 'u') {
      EscapeHas(s, start, j, res);
      xs := UnicodeSpelling(s, start, j, res);
    } else {
      var x: Item;
      if s[j] == '\\' {
        assert ShortNumber(s[j + 1]) >= 0;
        x := Short(s[j + 1]);
        ShortStep(s, start, j, res);
      } else {
        x := Itself(s[j]);
        ItselfStep(s, start, j, res);
      }
      PieceHas(s, j, x);
      var ys := Spelling(s, start, j + |Spelled(x)|, res + Octets(x).s);
      Prepended(s, j, x, ys);
      xs := [x] + ys;
      SaidMore(x, ys);
      assert (res + Octets(x).s) + Said(ys).s == res + (Octets(x).s + Said(ys).s);
    }
  }

  lemma EndHas(s: string, j: nat)
    requires At(s, j, '\"')
    ensures Has(s, j, SpelledAll([]) + "\"") && SpelledAll([]) == ""
  {
    assert s[j..j + 1] == "\"" == SpelledAll([]) + "\"";
  }

  lemma Said0()
    ensures Said([]) == Bytes("")
  {
  }

  lemma PieceHas(s: string, j: nat, x: Item)
    requires x.Itself? ==> At(s, j, x.c)
    requires x.Short? ==> At(s, j, '\\') && At(s, j + 1, x.e)
    requires x.Unicode? ==> UnicodeAt(s, j) && x.hex == s[j + 2..j + 6]
    ensures Has(s, j, Spelled(x))
    ensures |Spelled(x)| == match x case Itself(_) => 1 case Short(_) => 2 case Unicode(_) => 6
  {
  }

  lemma SaidMore(x: Item, ys: seq<Item>)
    requires !StartsPair([x] + ys)
    ensures Said([x] + ys) == Joined(Octets(x), Said(ys))
  {
    assert ([x] + ys)[1..] == ys;
  }

  lemma SaidPair(x: Item, y: Item, ys: seq<Item>)
    requires StartsPair([x, y] + ys)
    ensures Said([x, y] + ys) == Joined(CodepointToUtf8(Combined(HexNumber(x.hex), HexNumber(y.hex))), Said(ys))
  {
    assert ([x, y] + ys)[2..] == ys;
  }

  /** The case of an escape with digits. */
  lemma {:induction false} UnicodeSpelling(s: string, start: nat, j: nat, res: string) returns (xs: seq<Item>)
    requires StringFrom(s, start, j, res).Good? && UnicodeAt(s, j)
    ensures Has(s, j, SpelledAll(xs) + "\"") && Said(xs).Bytes?
    ensures StringFrom(s, start, j, res) == Good(res + Said(xs).s, j + |SpelledAll(xs)| + 1)
    decreases |s| - j, 0
  {
    hide Has, CodepointToUtf8, HexNumber, SpelledAll, StringFrom, Said, Spelled;
    var x := Unicode(s[j + 2..j + 6]);
    PieceHas(s, j, x);
    if HighSurrogate(NumberAt(s, j)) && UnicodeAt(s, j + 6) {
      var y := Unicode(s[j + 8..j + 12]);
      PieceHas(s, j + 6, y);
      PairStep(s, start, j, res);
      var b := CodepointToUtf8(Combined(NumberAt(s, j), NumberAt(s, j + 6))).s;
      var ys := Spelling(s, start, j + 12, res + b);
      Prepended(s, j + 6, y, ys);
      Prepended(s, j, x, [y] + ys);
      xs := [x, y] + ys;
      assert [x] + ([y] + ys) == xs;
      SaidPair(x, y, ys);
      assert (res + b) + Said(ys).s == res + (b + Said(ys).s);
    } else {
      SingleStep(s, start, j, res);
      var b := Octets(x).s;
      var ys := Spelling(s, start, j + 6, res + b);
      Prepended(s, j, x, ys);
      xs := [x] + ys;
      if StartsPair(xs) {
        ItemParts(s, j + 6, ys);
        UnicodeHere(s, j + 6, ys[0].hex);
        assert false;
      }
      SaidMore(x, ys);
      assert (res + b) + Said(ys).s == res + (b + Said(ys).s);
    }
  }

  /** `parse_string` accepts exactly the strings of the grammar, reads what their
      pieces say, and ends behind the closing quote. */
  lemma StringGrammar(s: string, i: nat, v: string, next: nat)
    ensures ParseString(s, i) == Good(v, next) <==>
            exists xs: seq<Item> ::
              Has(s, i + 1, SpelledAll(xs) + "\"") && Said(xs) == Bytes(v) && next == i + |SpelledAll(xs)| + 2
  {
    hide Has, SpelledAll, Said, StringFrom;
    if ParseString(s, i) == Good(v, next) {
      var xs := Spelling(s, i, i + 1, "");
      assert "" + Said(xs).s == Said(xs).s;
    }
    forall xs: seq<Item> | Has(s, i + 1, SpelledAll(xs) + "\"") && Said(xs) == Bytes(v)
      ensures ParseString(s, i) == Good(v, i + |SpelledAll(xs)| + 2)
    {
      Understood(s, i, i + 1, "", xs);
      assert "" + v == v;
    }
  }

  /** Reading cannot go on at `k`: a control character, or a backslash without
      an escape behind it, or a pair beyond the last code point. */
  predicate Stuck(s: string, k: nat)
    requires k < |s|
  {
    || s[k] as int < 32
    || (s[k] == '\\' && !(k + 1 < |s| && ShortNumber(s[k + 1]) >= 0)
        && (!UnicodeAt(s, k) || (HighSurrogate(NumberAt(s, k)) && UnicodeAt(s, k + 6)
                                 && Combined(NumberAt(s, k), NumberAt(s, k + 6)) > MAX_CODEPOINT)))
  }

  /** A refused string is spelled by pieces up to where it is refused: at its
      end, if the closing quote is missing, or else where reading is stuck. */
  lemma {:induction false} Refused(s: string, start: nat, j: nat, res: string) returns (xs: seq<Item>)
    requires j <= |s| && StringFrom(s, start, j, res).Bad?
    ensures Has(s, j, SpelledAll(xs))
    ensures var k, at := j + |SpelledAll(xs)|, StringFrom(s, start, j, res).at;
            (k == |s| && at == start) || (k < |s| && at == k && Stuck(s, k))
    decreases |s| - j
  {
    hide Has, CodepointToUtf8, HexNumber, SpelledAll, Spelled, Combined, StringFrom;
    if j == |s| || Stuck(s, j) {
      xs := [];
      HasNothing(s, j);
      StuckStep(s, start, j, res);
    } else if s[j] == '\"' {
      QuoteStep(s, start, j, res);
      assert false;
    } else if s[j] == '\\' && !(j + 1 < |s| && ShortNumber(s[j + 1]) >= 0) {
      var x, n := Unicode(s[j + 2..j + 6]), NumberAt(s, j);
      PieceHas(s, j, x);
      if HighSurrogate(n) && UnicodeAt(s, j + 6) {
        var y := Unicode(s[j + 8..j + 12]);
        PieceHas(s, j + 6, y);
        PairStep(s, start, j, res);
        Utf8RoundTrip(Combined(n, NumberAt(s, j + 6)));
        var ys := Refused(s, start, j + 12, res + CodepointToUtf8(Combined(n, NumberAt(s, j + 6))).s);
        HasMore(s, j + 6, y, ys);
        HasMore(s, j, x, [y] + ys);
        xs := [x] + ([y] + ys);
      } else {
        SingleStep(s, start, j, res);
        var ys := Refused(s, start, j + 6, res + CodepointToUtf8(n).s);
        HasMore(s, j, x, ys);
        xs := [x] + ys;
      }
    } else {
      var x := if s[j] == '\\' then Short(s[j + 1]) else Itself(s[j]);
      if s[j] == '\\' {
        ShortStep(s, start, j, res);
      } else {
        ItselfStep(s, start, j, res);
      }
      PieceHas(s, j, x);
      var ys := Refused(s, start, j + |Spelled(x)|, res + Octets(x).s);
      HasMore(s, j, x, ys);
      xs := [x] + ys;
    }
  }

  lemma HasNothing(s: string, j: nat)
    requires j <= |s|
    ensures Has(s, j, SpelledAll([])) && SpelledAll([]) == ""
  {
  }

  lemma HasMore(s: string, j: nat, x: Item, xs: seq<Item>)
    requires Has(s, j, Spelled(x)) && Has(s, j + |Spelled(x)|, SpelledAll(xs))
    ensures Has(s, j, SpelledAll([x] + xs)) && |SpelledAll([x] + xs)| == |Spelled(x)| + |SpelledAll(xs)|
  {
    hide Has, Spelled;
    assert ([x] + xs)[1..] == xs;
    HasBoth(s, j, Spelled(x), SpelledAll(xs));
  }

  lemma QuoteStep(s: string, start: nat, j: nat, res: string)
    requires At(s, j, '\"')
    ensures StringFrom(s, start, j, res) == Good(res, j + 1)
  {
  }

  lemma StuckStep(s: string, start: nat, j: nat, res: string)
    requires j == |s| || (j < |s| && Stuck(s, j))
    ensures StringFrom(s, start, j, res) == Bad(if j == |s| then start else j)
  {
    hide CodepointToUtf8, HexNumber, NumberAt, Combined, HexAt;
    if j < |s| && s[j] as int >= 32 {
      if UnicodeAt(s, j) {
        PairStep(s, start, j, res);
        Utf8RoundTrip(Combined(NumberAt(s, j), NumberAt(s, j + 6)));
      } else if At(s, j + 1, 'u') {
        NoDigits(s, j);
      }
    }
  }

  lemma NoDigits(s: string, j: nat)
    requires At(s, j, '\\') && At(s, j + 1, 'u') && !UnicodeAt(s, j)
    ensures HexAt(s, j + 2) == ""
  {
    hide HexNumber;
  }

  /** `parse_string` reports a missing closing quote at the start of the
      string, and any other fault where it is. */
  lemma StringRefused(s: string, i: nat) returns (xs: seq<Item>)
    requires i < |s| && ParseString(s, i).Bad?
    ensures Has(s, i + 1, SpelledAll(xs))
    ensures var k, at := i + 1 + |SpelledAll(xs)|, ParseString(s, i).at;
            (k == |s| && at == i) || (k < |s| && at == k && Stuck(s, k))
  {
    hide Has, SpelledAll, Stuck, StringFrom;
    xs := Refused(s, i, i + 1, "");
  }

  /** `encode_string` escapes a character if and only if it may not stand for
      itself, with the short escape if there is one and otherwise with four
      digits. */
  lemma PrintedCharacter(c: char)
    ensures c as int >= 32 && c != '\"' && c != '\\' ==> Escaped(c) == [c]
    ensures forall e | e != '/' && ShortNumber(e) == c as int :: Escaped(c) == ['\\', e]
    ensures c as int < 32 && (forall e :: ShortNumber(e) != c as int) ==>
              && UnicodeAt(Escaped(c), 0) && NumberAt(Escaped(c), 0) == c as int && |Escaped(c)| == 6
              && forall d | d in Escaped(c) :: d !in "ABCDEF"
  {
    hide HexNumber, NumberAt, UnicodeAt, ShortNumber;
    ShortCharacter(c);
    if c as int < 32 && c !in SHORT_ESCAPES {
      ControlCharacter(c);
    }
  }

  lemma ShortCharacter(c: char)
    ensures c in SHORT_ESCAPES ==> ShortNumber(SHORT_ESCAPES[c]) == c as int
    ensures forall e | e != '/' && ShortNumber(e) == c as int :: c in SHORT_ESCAPES && SHORT_ESCAPES[c] == e
    ensures c as int >= 32 && c in SHORT_ESCAPES ==> c == '\"' || c == '\\'
  {
  }

  lemma ControlCharacter(c: char)
    requires c as int < 32 && c !in SHORT_ESCAPES
    ensures UnicodeAt(Escaped(c), 0) && NumberAt(Escaped(c), 0) == c as int && |Escaped(c)| == 6
    ensures forall d | d in Escaped(c) :: d !in "ABCDEF"
  {
    hide HexNumber;
    var s := Escaped(c);
    var hex := s[2..6];
    HexCharValue(c as int / 16);
    HexCharValue(c as int % 16);
    assert hex == "00" + [HexChar(c as int / 16), HexChar(c as int % 16)];
    FourHexDigits(hex);
  }
}
