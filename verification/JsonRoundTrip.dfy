/** Whatever tree is printed, decoding the text gives the value it denotes. */
module JsonRoundTrip {
  import opened JsonParser
  import opened JsonText
  import opened JsonValues
  import opened Utf8

  /** `text` stands in `s` at position `i`. */
  predicate Has(s: string, i: nat, text: string) {
    i + |text| <= |s| && s[i..i + |text|] == text
  }

  lemma HasParts(s: string, i: nat, a: string, b: string)
    requires Has(s, i, a + b)
    ensures Has(s, i, a) && Has(s, i + |a|, b)
    ensures |a| > 0 ==> At(s, i, a[0])
    ensures |b| > 0 ==> At(s, i + |a|, b[0])
  {
    var t := s[i..i + |a + b|];
    assert t[..|a|] == a && t[|a|..] == b;
    assert s[i..i + |a|] == t[..|a|] && s[i + |a|..i + |a| + |b|] == t[|a|..];
  }

  /** `next_char` stops at the first character it is looking for. */
  lemma {:induction false} NextCharStops(s: string, i: nat, chars: set<char>, negate: bool, r: nat)
    requires i <= r <= |s|
    requires forall k | i <= k < r :: (s[k] in chars) == negate
    requires r < |s| ==> (s[r] in chars) != negate
    ensures NextChar(s, i, chars, negate) == r
    decreases r - i
  {
    if i < r {
      NextCharStops(s, i + 1, chars, negate, r);
    }
  }

  predicate Delimited(s: string, i: nat) {
    i == |s| || (i < |s| && s[i] in DELIMITERS)
  }

  predicate Plain(text: string) {
    forall k | 0 <= k < |text| :: text[k] !in DELIMITERS
  }

  lemma TokenEnd(s: string, i: nat, text: string)
    requires Has(s, i, text) && Plain(text) && Delimited(s, i + |text|)
    ensures NextChar(s, i, DELIMITERS, false) == i + |text|
  {
    assert forall k | i <= k < i + |text| :: s[k] == s[i..i + |text|][k - i];
    NextCharStops(s, i, DELIMITERS, false, i + |text|);
  }

  lemma HexCharValue(d: nat)
    requires d < 16
    ensures HexValue(HexChar(d)) == d
  {
  }

  /** One character, escaped the way it was printed, is read back. */
  lemma CharacterBack(s: string, start: nat, j: nat, res: string, c: char)
    requires Has(s, j, Escaped(c))
    ensures StringFrom(s, start, j, res) == StringFrom(s, start, j + |Escaped(c)|, res + [c])
  {
    var e := Escaped(c);
    assert forall k | 0 <= k < |e| :: s[j + k] == s[j..j + |e|][k] == e[k];
    if c in SHORT_ESCAPES {
      assert s[j] == e[0] == '\\' && s[j + 1] == e[1];
      assert e[1] in ESCAPES && e[1] != 'u' && ESCAPES[e[1]] == c;
    } else if c as int < 32 {
      ControlBack(s, start, j, res, c);
    } else {
      assert s[j] == e[0] == c;
    }
  }

  lemma ControlBack(s: string, start: nat, j: nat, res: string, c: char)
    requires c !in SHORT_ESCAPES && c as int < 32 && Has(s, j, Escaped(c))
    ensures StringFrom(s, start, j, res) == StringFrom(s, start, j + 6, res + [c])
  {
    hide StringFrom;
    var e := Escaped(c);
    var hex := s[j + 2..j + 6];
    HexCharValue(c as int / 16);
    HexCharValue(c as int % 16);
    assert hex == e[2..6] == "00" + [HexChar(c as int / 16), HexChar(c as int % 16)] by {
      assert s[j..j + 6][2..6] == hex;
    }
    FourHexDigits(hex);
    assert HexNumber(hex) == c as int;
    assert s[j] == s[j..j + 6][0] == '\\' && s[j + 1] == s[j..j + 6][1] == 'u';
    assert HexAt(s, j + 2) == hex by {
      assert s[j + 2] == hex[0] == '0';
    }
    assert ParseUnicodeEscape(hex) == Bytes([c]);
    EscapeStep(s, start, j, res, hex, [c]);
  }

  lemma EscapeStep(s: string, start: nat, j: nat, res: string, hex: string, b: string)
    requires At(s, j, '\\') && At(s, j + 1, 'u') && HexAt(s, j + 2) == hex != "" && ParseUnicodeEscape(hex) == Bytes(b)
    ensures StringFrom(s, start, j, res) == StringFrom(s, start, j + 2 + |hex|, res + b)
  {
    hide HexAt, ParseUnicodeEscape;
  }

  lemma {:induction false} CharactersBack(s: string, start: nat, j: nat, res: string, str: string)
    requires Has(s, j, EscapedAll(str) + "\"")
    ensures StringFrom(s, start, j, res) == Good(res + str, j + |EscapedAll(str)| + 1)
    decreases |str|
  {
    hide Escaped, Has;
    if str == [] {
      assert EscapedAll(str) + "\"" == "\"" + "";
      HasParts(s, j, "\"", "");
      assert res + str == res;
    } else {
      var rest := EscapedAll(str[1..]);
      assert EscapedAll(str) + "\"" == Escaped(str[0]) + (rest + "\"");
      HasParts(s, j, Escaped(str[0]), rest + "\"");
      CharacterBack(s, start, j, res, str[0]);
      CharactersBack(s, start, j + |Escaped(str[0])|, res + [str[0]], str[1..]);
      assert res + [str[0]] + str[1..] == res + str;
    }
  }

  /** Every string, whatever its characters, survives `encode_string` and
      `parse_string`. */
  lemma StringBack(s: string, i: nat, str: string)
    requires Has(s, i, PrintString(str))
    ensures ParseString(s, i) == Good(str, i + |PrintString(str)|) && At(s, i, '\"')
  {
    assert PrintString(str) == "\"" + (EscapedAll(str) + "\"");
    HasParts(s, i, "\"", EscapedAll(str) + "\"");
    CharactersBack(s, i, i + 1, "", str);
    assert "" + str == str;
  }

  lemma NumberBack(s: string, i: nat, n: SmallInt, other: string -> bool)
    requires Has(s, i, Decimal(n)) && Delimited(s, i + |Decimal(n)|)
    ensures Parse(s, i, other) == Good(Num(Integer(n)), i + |Decimal(n)|)
  {
    hide ToNumber;
    var text := Decimal(n);
    TokenEnd(s, i, text);
    DecimalRoundTrip(n, other);
    assert s[i] == s[i..i + |text|][0] == text[0];
  }

  lemma WordBack(s: string, i: nat, word: string, other: string -> bool)
    requires word == "true" || word == "false" || word == "null"
    requires Has(s, i, word) && Delimited(s, i + |word|)
    ensures Parse(s, i, other) == Good(if word == "null" then Nil else Bool(word == "true"), i + |word|)
  {
    TokenEnd(s, i, word);
    assert s[i] == s[i..i + |word|][0] == word[0];
  }

  /** No printed text starts with something the parser would skip or take for
      the end of a table. */
  lemma PrintStart(t: Tree)
    ensures |Print(t)| > 0 && Print(t)[0] !in SPACES && Print(t)[0] !in {']', '}', ','}
  {
    if t.NumTree? {
      assert t.n >= 0 ==> Print(t) == Digits(t.n);
    }
  }

  lemma SkipNothing(s: string, i: nat)
    requires i < |s| && s[i] !in SPACES
    ensures SkipSpace(s, i) == i
  {
  }

  lemma JoinStep(p: string, ps: seq<string>, close: string)
    ensures Join([p] + ps) + close == if ps == [] then p + close else p + ("," + (Join(ps) + close))
  {
    if ps == [] {
      assert [p] + ps == [p];
    } else {
      assert ([p] + ps)[1..] == ps;
      assert Join([p] + ps) == p + "," + Join(ps);
    }
  }

  lemma JoinElements(p: string, ps: seq<string>, close: string)
    requires |close| == 1
    ensures Join([p] + ps) + close == p + After(ps, close) && |After(ps, close)| > 0
  {
    JoinStep(p, ps, close);
  }

  /** One turn of the loop of `parse_array`. */
  lemma ArrayStep(s: string, i: nat, m: map<Key, Value>, n: nat, x: Value, next: nat, other: string -> bool)
    requires i < |s| && s[i] !in SPACES && s[i] != ']'
    requires Parse(s, i, other) == Good(x, next) && next < |s| && (s[next] == ']' || s[next] == ',')
    ensures ArrayFrom(s, i, m, n, other) ==
            if s[next] == ']' then Good(Table(Put(m, Index(n), x)), next + 1)
            else ArrayFrom(s, next + 1, Put(m, Index(n), x), n + 1, other)
  {
    hide Parse;
    SkipNothing(s, i);
    SkipNothing(s, next);
  }

  /** One turn of the loop of `parse_object`. */
  lemma ObjectStep(s: string, i: nat, m: map<Key, Value>, key: string, j: nat, x: Value, next: nat,
      other: string -> bool)
    requires At(s, i, '\"') && ParseString(s, i) == Good(key, j)
    requires At(s, j, ':') && j + 1 < |s| && s[j + 1] !in SPACES
    requires Parse(s, j + 1, other) == Good(x, next) && next < |s| && (s[next] == '}' || s[next] == ',')
    ensures ObjectFrom(s, i, m, other) ==
            if s[next] == '}' then Good(Table(Put(m, Name(key), x)), next + 1)
            else ObjectFrom(s, next + 1, Put(m, Name(key), x), other)
  {
    hide Parse, ParseString;
    SkipNothing(s, i);
    SkipNothing(s, j);
    SkipNothing(s, j + 1);
    SkipNothing(s, next);
  }

  /** What follows a printed element: the end of its table or the next one. */
  function After(rest: seq<string>, close: string): string {
    if rest == [] then close else "," + (Join(rest) + close)
  }

  lemma ElementParts(s: string, i: nat, p: string, after: string)
    requires Has(s, i, p + after) && |p| > 0 && |after| > 0
    ensures Has(s, i, p) && At(s, i, p[0]) && Has(s, i + |p|, after) && At(s, i + |p|, after[0])
  {
    HasParts(s, i, p, after);
  }

  lemma AfterParts(s: string, i: nat, rest: seq<string>, close: string)
    requires Has(s, i, After(rest, close)) && |close| == 1 && close[0] != ','
    ensures At(s, i, After(rest, close)[0]) && (i < |s| && s[i] == ',' <==> rest != [])
    ensures rest == [] ==> At(s, i, close[0]) && |After(rest, close)| == 1
    ensures rest != [] ==>
              && At(s, i, ',') && Has(s, i + 1, Join(rest) + close)
              && |After(rest, close)| == |Join(rest)| + 2
  {
    hide Has, Join;
    if rest == [] {
      assert close + "" == close;
      HasParts(s, i, close, "");
    } else {
      HasParts(s, i, ",", Join(rest) + close);
    }
  }

  lemma PrintElementsStep(es: seq<Tree>, m: map<Key, Value>, n: nat)
    requires es != []
    ensures PrintElements(es) == [Print(es[0])] + PrintElements(es[1..])
            && (PrintElements(es[1..]) == [] <==> es[1..] == [])
    ensures var m' := Put(m, Index(n), Denote(es[0]));
            Filled(m, n, es) == if es[1..] == [] then m' else Filled(m', n + 1, es[1..])
  {
  }

  lemma {:induction false} ElementsBack(s: string, i: nat, m: map<Key, Value>, n: nat, es: seq<Tree>,
      other: string -> bool)
    requires es != [] && ProperElements(es)
    requires Has(s, i, Join(PrintElements(es)) + "]")
    ensures ArrayFrom(s, i, m, n, other) == Good(Table(Filled(m, n, es)), i + |Join(PrintElements(es)) + "]"|)
    decreases es, 0
  {
    hide Print, Parse, ArrayFrom, Denote, Proper, Has, Join, Put, After, PrintElements, Filled;
    var p, rest := Print(es[0]), PrintElements(es[1..]);
    PrintElementsStep(es, m, n);
    JoinElements(p, rest, "]");
    PrintStart(es[0]);
    ElementParts(s, i, p, After(rest, "]"));
    AfterParts(s, i + |p|, rest, "]");
    TreeBack(s, i, es[0], other);
    ArrayStep(s, i, m, n, Denote(es[0]), i + |p|, other);
    if rest != [] {
      ElementsBack(s, i + |p| + 1, Put(m, Index(n), Denote(es[0])), n + 1, es[1..], other);
    }
  }

  lemma MemberParts(s: string, i: nat, key: string, p: string, after: string)
    requires Has(s, i, key + ":" + p + after) && |p| > 0 && |after| > 0
    ensures Has(s, i, key) && At(s, i + |key|, ':') && At(s, i + |key| + 1, p[0])
    ensures Has(s, i + |key| + 1, p) && Has(s, i + |key| + 1 + |p|, after) && At(s, i + |key| + 1 + |p|, after[0])
  {
    hide Has;
    assert key + ":" + p + after == key + (":" + (p + after));
    HasParts(s, i, key, ":" + (p + after));
    HasParts(s, i + |key|, ":", p + after);
    HasParts(s, i + |key| + 1, p, after);
  }

  lemma PrintMembersStep(ms: seq<Member>, m: map<Key, Value>)
    requires ms != []
    ensures PrintMembers(ms) == [PrintString(ms[0].key) + ":" + Print(ms[0].value)] + PrintMembers(ms[1..])
    ensures PrintMembers(ms[1..]) == [] <==> ms[1..] == []
    ensures var m' := Put(m, Name(ms[0].key), Denote(ms[0].value));
            Assigned(m, ms) == if ms[1..] == [] then m' else Assigned(m', ms[1..])
  {
  }

  lemma {:induction false} MembersBack(s: string, i: nat, m: map<Key, Value>, ms: seq<Member>, other: string -> bool)
    requires ms != [] && ProperMembers(ms)
    requires Has(s, i, Join(PrintMembers(ms)) + "}")
    ensures ObjectFrom(s, i, m, other) == Good(Table(Assigned(m, ms)), i + |Join(PrintMembers(ms)) + "}"|)
    decreases ms, 0
  {
    hide Print, Parse, ObjectFrom, Denote, Proper, PrintString, ParseString, Has, Join, Put, After, PrintMembers,
        Assigned;
    var key, p, rest := PrintString(ms[0].key), Print(ms[0].value), PrintMembers(ms[1..]);
    var j := i + |key|;
    PrintMembersStep(ms, m);
    JoinElements(key + ":" + p, rest, "}");
    PrintStart(ms[0].value);
    MemberParts(s, i, key, p, After(rest, "}"));
    AfterParts(s, j + 1 + |p|, rest, "}");
    StringBack(s, i, ms[0].key);
    TreeBack(s, j + 1, ms[0].value, other);
    ObjectStep(s, i, m, ms[0].key, j, Denote(ms[0].value), j + 1 + |p|, other);
    if rest != [] {
      MembersBack(s, j + 1 + |p| + 1, Put(m, Name(ms[0].key), Denote(ms[0].value)), ms[1..], other);
    }
  }

  /** A printed tree, anywhere in a text and followed by a delimiter, parses to
      the value it denotes, and parsing stops right behind it. */
  lemma {:induction false} TreeBack(s: string, i: nat, t: Tree, other: string -> bool)
    requires Proper(t) && Has(s, i, Print(t)) && Delimited(s, i + |Print(t)|)
    ensures Parse(s, i, other) == Good(Denote(t), i + |Print(t)|)
    decreases t, 1
  {
    hide Has, Decimal, PrintString, ParseString, Join;
    match t
    case NilTree => WordBack(s, i, "null", other);
    case BoolTree(b) => WordBack(s, i, if b then "true" else "false", other);
    case NumTree(n) => NumberBack(s, i, n, other);
    case StrTree(str) => StringBack(s, i, str);
    case ArrayTree(es) =>
      HasParts(s, i, "[", Join(PrintElements(es)) + "]") by {
        assert Print(t) == "[" + (Join(PrintElements(es)) + "]");
      }
      if es == [] {
        EmptyArray(s, i, other);
      } else {
        ElementsBack(s, i + 1, map[], 1, es, other);
        ParseOpens(s, i, other);
      }
    case ObjectTree(ms) =>
      HasParts(s, i, "{", Join(PrintMembers(ms)) + "}") by {
        assert Print(t) == "{" + (Join(PrintMembers(ms)) + "}");
      }
      MembersBack(s, i + 1, map[], ms, other);
      ParseOpens(s, i, other);
  }

  lemma ParseOpens(s: string, i: nat, other: string -> bool)
    requires i < |s|
    ensures s[i] == '[' ==> Parse(s, i, other) == ArrayFrom(s, i + 1, map[], 1, other)
    ensures s[i] == '{' ==> Parse(s, i, other) == ObjectFrom(s, i + 1, map[], other)
  {
  }

  lemma EmptyArray(s: string, i: nat, other: string -> bool)
    requires Has(s, i, Print(ArrayTree([])))
    ensures Parse(s, i, other) == Good(Table(map[]), i + 2) && Print(ArrayTree([])) == "[]"
  {
    assert Print(ArrayTree([])) == "[" + "]" == "[]";
    HasParts(s, i, "[", "]");
    SkipNothing(s, i + 1);
  }

  /** The round trip of the codec, for every tree of tables, with every order
      of keys. */
  lemma JsonRoundTrips(t: Tree, other: string -> bool)
    requires Proper(t)
    ensures Decode(Print(t), other) == Good(Denote(t), |Print(t)|)
  {
    PrintStart(t);
    SkipNothing(Print(t), 0);
    TreeBack(Print(t), 0, t, other);
  }
}
