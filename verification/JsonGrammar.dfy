/** The texts that lib/json.lua decodes, as a grammar with every character in
    its place, and what each text means: `json.decode` accepts exactly these
    and returns exactly that. */
module JsonGrammar {
  import opened JsonParser
  import opened JsonRoundTrip
  import opened JsonStrings
  import opened JsonValues
  import opened Utf8

  datatype Node =
    | Word(text: string)  // a number or a literal
    | Quoted(xs: seq<Item>)
    | List(es: Elements)
    | Object(fs: Fields)

  /** What stands behind `[`. A comma may be followed by the closing bracket. */
  datatype Elements =
    | NoElement(space: string)
    | LastElement(before: string, x: Node, after: string)
    | NextElement(before: string, x: Node, after: string, rest: Elements)

  /** What stands behind `{`. */
  datatype Fields =
    | NoField(space: string)
    | LastField(f: Field, after: string)
    | NextField(f: Field, after: string, rest: Fields)

  datatype Field = Field(before: string, name: seq<Item>, beforeColon: string, afterColon: string, x: Node)

  predicate Spaces(w: string) {
    forall k | 0 <= k < |w| :: w[k] == ' ' || w[k] == '\t' || w[k] == '\r' || w[k] == '\n'
  }

  function QuotedText(xs: seq<Item>): string {
    "\"" + (SpelledAll(xs) + "\"")
  }

  function Text(x: Node): string {
    match x
    case Word(text) => text
    case Quoted(xs) => QuotedText(xs)
    case List(es) => "[" + ElementsText(es)
    case Object(fs) => "{" + FieldsText(fs)
  }

  function ElementsText(es: Elements): string {
    match es
    case NoElement(space) => space + "]"
    case LastElement(before, x, after) => before + (Text(x) + (after + "]"))
    case NextElement(before, x, after, rest) => before + (Text(x) + (after + ("," + ElementsText(rest))))
  }

  function FieldsText(fs: Fields): string {
    match fs
    case NoField(space) => space + "}"
    case LastField(f, after) => FieldText(f) + (after + "}")
    case NextField(f, after, rest) => FieldText(f) + (after + ("," + FieldsText(rest)))
  }

  function FieldText(f: Field): string {
    f.before + (QuotedText(f.name) + (f.beforeColon + (":" + (f.afterColon + Text(f.x)))))
  }

  predicate Unbroken(text: string) {
    Unspaced(text) && forall k | 0 <= k < |text| :: text[k] != ']' && text[k] != '}' && text[k] != ','
  }

  predicate Unspaced(text: string) {
    forall k | 0 <= k < |text| :: text[k] != ' ' && text[k] != '\t' && text[k] != '\r' && text[k] != '\n'
  }

  /** A literal, or a number: something that starts like one, that has no
      delimiter in it and that `tonumber` accepts. */
  predicate WordOk(text: string, other: string -> bool) {
    || text == "true" || text == "false" || text == "null"
    || (text != "" && ('0' <= text[0] <= '9' || text[0] == '-') && Unbroken(text) && ToNumber(text, other) != Nil)
  }

  predicate NodeOk(x: Node, other: string -> bool) {
    match x
    case Word(text) => WordOk(text, other)
    case Quoted(xs) => Said(xs).Bytes?
    case List(es) => ElementsOk(es, other)
    case Object(fs) => FieldsOk(fs, other)
  }

  predicate ElementsOk(es: Elements, other: string -> bool) {
    match es
    case NoElement(space) => Spaces(space)
    case LastElement(before, x, after) => Spaces(before) && NodeOk(x, other) && Spaces(after)
    case NextElement(before, x, after, rest) =>
      Spaces(before) && NodeOk(x, other) && Spaces(after) && ElementsOk(rest, other)
  }

  predicate FieldsOk(fs: Fields, other: string -> bool) {
    match fs
    case NoField(space) => Spaces(space)
    case LastField(f, after) => FieldOk(f, other) && Spaces(after)
    case NextField(f, after, rest) => FieldOk(f, other) && Spaces(after) && FieldsOk(rest, other)
  }

  predicate FieldOk(f: Field, other: string -> bool) {
    && Spaces(f.before) && Said(f.name).Bytes? && Spaces(f.beforeColon) && Spaces(f.afterColon)
    && NodeOk(f.x, other)
  }

  function Content(xs: seq<Item>): string {
    match Said(xs)
    case Bytes(b) => b
    case Invalid => ""
  }

  /** What a text means. */
  function Meaning(x: Node, other: string -> bool): Value {
    match x
    case Word(text) =>
      if text == "true" then Bool(true)
      else if text == "false" then Bool(false)
      else if text == "null" then Nil
      else ToNumber(text, other)
    case Quoted(xs) => Str(Content(xs))
    case List(es) => Table(Listed(Values(es, other)))
    case Object(fs) => Table(Named(Pairs(fs, other)))
  }

  function Values(es: Elements, other: string -> bool): seq<Value> {
    match es
    case NoElement(_) => []
    case LastElement(_, x, _) => [Meaning(x, other)]
    case NextElement(_, x, _, rest) => [Meaning(x, other)] + Values(rest, other)
  }

  function Pairs(fs: Fields, other: string -> bool): seq<(string, Value)> {
    match fs
    case NoField(_) => []
    case LastField(f, _) => [(Content(f.name), Meaning(f.x, other))]
    case NextField(f, _, rest) => [(Content(f.name), Meaning(f.x, other))] + Pairs(rest, other)
  }

  /** Each value under its place, counted from 1; `null` leaves its place
      empty. */
  function Listed(vs: seq<Value>): map<Key, Value> {
    map i | 1 <= i <= |vs| && vs[i - 1] != Nil :: Index(i) := vs[i - 1]
  }

  /** The value of the last pair of that name. */
  function Latest(ps: seq<(string, Value)>, name: string): Value {
    if ps == [] then Nil
    else if ps[|ps| - 1].0 == name then ps[|ps| - 1].1
    else Latest(ps[..|ps| - 1], name)
  }

  /** Each name with its last value, unless that is `null`. */
  function Named(ps: seq<(string, Value)>): map<Key, Value> {
    map p | p in ps && Latest(ps, p.0) != Nil :: Name(p.0) := Latest(ps, p.0)
  }

  lemma ListedMore(vs: seq<Value>, v: Value)
    ensures Put(Listed(vs), Index(|vs| + 1), v) == Listed(vs + [v])
  {
  }

  lemma {:induction false} LatestIn(ps: seq<(string, Value)>, name: string)
    ensures Latest(ps, name) != Nil ==> (name, Latest(ps, name)) in ps
  {
    if ps != [] && ps[|ps| - 1].0 != name {
      LatestIn(ps[..|ps| - 1], name);
    }
  }

  lemma NamedAt(ps: seq<(string, Value)>, k: Key)
    ensures k in Named(ps) <==> k.Name? && Latest(ps, k.s) != Nil
    ensures k in Named(ps) ==> Named(ps)[k] == Latest(ps, k.s)
  {
    if k.Name? {
      LatestIn(ps, k.s);
    }
  }

  lemma NamedMore(ps: seq<(string, Value)>, name: string, v: Value)
    ensures Put(Named(ps), Name(name), v) == Named(ps + [(name, v)])
  {
    hide Named;
    var a, b := Put(Named(ps), Name(name), v), Named(ps + [(name, v)]);
    assert (ps + [(name, v)])[..|ps|] == ps;
    forall k
      ensures (k in a <==> k in b) && (k in a ==> a[k] == b[k])
    {
      NamedAt(ps, k);
      NamedAt(ps + [(name, v)], k);
    }
  }

  lemma SpacesSkipped(s: string, i: nat, w: string)
    requires Has(s, i, w) && Spaces(w) && (i + |w| < |s| ==> s[i + |w|] !in SPACES)
    ensures SkipSpace(s, i) == i + |w|
  {
    HasAt(s, i, w);
    assert forall k | i <= k < i + |w| :: s[k] == w[k - i];
    NextCharStops(s, i, SPACES, true, i + |w|);
  }

  lemma SpacesFound(s: string, i: nat) returns (w: string)
    requires i <= |s|
    ensures Has(s, i, w) && Spaces(w) && SkipSpace(s, i) == i + |w|
    ensures i + |w| < |s| ==> s[i + |w|] !in SPACES
  {
    w := s[i..SkipSpace(s, i)];
  }

  lemma NodeStart(x: Node, other: string -> bool)
    requires NodeOk(x, other)
    ensures Text(x) != "" && Text(x)[0] !in SPACES && Text(x)[0] != ']'
  {
  }

  /** The character behind white space that a closing bracket, a comma or a
      colon follows. */
  lemma SkipTo(s: string, i: nat, w: string, rest: string)
    requires Has(s, i, w + rest) && Spaces(w) && rest != "" && rest[0] !in SPACES
    ensures SkipSpace(s, i) == i + |w| && At(s, i + |w|, rest[0]) && Has(s, i + |w|, rest)
    ensures rest[0] in DELIMITERS ==> Delimited(s, i)
  {
    HasParts(s, i, w, rest);
    SpacesSkipped(s, i, w);
    if w != "" {
      HasAt(s, i, w);
      assert s[i + 0] == w[0];
    }
  }

  lemma UnbrokenIsPlain(text: string)
    ensures Unbroken(text) <==> Plain(text)
  {
  }

  lemma WordRead(s: string, i: nat, text: string, other: string -> bool)
    requires WordOk(text, other) && Has(s, i, text) && Delimited(s, i + |text|)
    ensures Parse(s, i, other) == Good(Meaning(Word(text), other), i + |text|)
  {
    hide ToNumber;
    if text == "true" || text == "false" || text == "null" {
      WordBack(s, i, text, other);
    } else {
      UnbrokenIsPlain(text);
      TokenEnd(s, i, text);
      HasAt(s, i, text);
      assert s[i + 0] == text[0];
    }
  }

  lemma QuotedRead(s: string, i: nat, xs: seq<Item>)
    requires Said(xs).Bytes? && Has(s, i, QuotedText(xs))
    ensures At(s, i, '\"') && ParseString(s, i) == Good(Content(xs), i + |QuotedText(xs)|)
  {
    hide Has, ParseString, SpelledAll, Said;
    HasParts(s, i, "\"", SpelledAll(xs) + "\"");
    StringGrammar(s, i, Content(xs), i + |QuotedText(xs)|);
  }

  /** Every text of the grammar is read as what it means, up to its end. */
  lemma {:induction false} NodeRead(s: string, i: nat, x: Node, other: string -> bool)
    requires NodeOk(x, other) && Has(s, i, Text(x)) && (x.Word? ==> Delimited(s, i + |Text(x)|))
    ensures Parse(s, i, other) == Good(Meaning(x, other), i + |Text(x)|)
    decreases x, 0
  {
    hide Has, WordOk, ToNumber, ParseString, Said, QuotedText, ArrayFrom, ObjectFrom, ElementsText, FieldsText,
        Listed, Named;
    match x
    case Word(text) => WordRead(s, i, text, other);
    case Quoted(xs) => QuotedRead(s, i, xs);
    case List(es) =>
      HasParts(s, i, "[", ElementsText(es));
      ElementsRead(s, i + 1, [], es, other);
      assert Listed([]) == map[] by { NothingThere(); }
      assert [] + Values(es, other) == Values(es, other);
    case Object(fs) =>
      HasParts(s, i, "{", FieldsText(fs));
      FieldsRead(s, i + 1, [], fs, other);
      assert Named([]) == map[] by { NothingThere(); }
      assert [] + Pairs(fs, other) == Pairs(fs, other);
  }

  lemma NothingThere()
    ensures Listed([]) == map[] && Named([]) == map[]
  {
  }

  /** A place of a list, as the loop of `parse_array` reads it. */
  lemma ElementTurn(s: string, i: nat, j: nat, m: map<Key, Value>, n: nat, v: Value, next: nat, k: nat,
      other: string -> bool)
    requires i <= |s| && SkipSpace(s, i) == j && !At(s, j, ']') && Parse(s, j, other) == Good(v, next)
    requires SkipSpace(s, next) == k
    ensures ArrayFrom(s, i, m, n, other) ==
            if At(s, k, ']') then Good(Table(Put(m, Index(n), v)), k + 1)
            else if At(s, k, ',') then ArrayFrom(s, k + 1, Put(m, Index(n), v), n + 1, other)
            else Bad(k + 1)
  {
    hide Parse, SkipSpace;
  }

  /** An element with the white space around it, in front of `rest`. */
  lemma ElementRead(s: string, i: nat, before: string, x: Node, after: string, rest: string, other: string -> bool)
    requires Has(s, i, before + (Text(x) + (after + rest)))
    requires Spaces(before) && NodeOk(x, other) && Spaces(after) && rest != "" && (rest[0] == ']' || rest[0] == ',')
    ensures var j := i + |before|; var next := j + |Text(x)|;
            && SkipSpace(s, i) == j && !At(s, j, ']') && next <= |s|
            && SkipSpace(s, next) == next + |after| && Has(s, next + |after|, rest) && At(s, next + |after|, rest[0])
            && Has(s, j, Text(x)) && Delimited(s, next)
  {
    hide Has, Text, SkipSpace;
    NodeStart(x, other);
    SkipTo(s, i, before, Text(x) + (after + rest));
    HasParts(s, i + |before|, Text(x), after + rest);
    SkipTo(s, i + |before| + |Text(x)|, after, rest);
  }

  lemma {:induction false} ElementsRead(s: string, i: nat, us: seq<Value>, es: Elements, other: string -> bool)
    requires ElementsOk(es, other) && Has(s, i, ElementsText(es))
    ensures i <= |s| && ArrayFrom(s, i, Listed(us), |us| + 1, other) ==
                        Good(Table(Listed(us + Values(es, other))), i + |ElementsText(es)|)
    decreases es, 1
  {
    hide Has, Text, Parse, ArrayFrom, SkipSpace, Listed, NodeOk, Spaces, Put, Meaning;
    match es
    case NoElement(space) =>
      SkipTo(s, i, space, "]");
      ListEnd(s, i, Listed(us), |us| + 1, other);
      assert us + [] == us;
    case LastElement(before, x, after) =>
      ElementRead(s, i, before, x, after, "]", other);
      NodeRead(s, i + |before|, x, other);
      var next := i + |before| + |Text(x)|;
      ElementTurn(s, i, i + |before|, Listed(us), |us| + 1, Meaning(x, other), next, next + |after|, other);
      ListedMore(us, Meaning(x, other));
    case NextElement(before, x, after, rest) =>
      ElementRead(s, i, before, x, after, "," + ElementsText(rest), other);
      NodeRead(s, i + |before|, x, other);
      var next := i + |before| + |Text(x)|;
      ElementTurn(s, i, i + |before|, Listed(us), |us| + 1, Meaning(x, other), next, next + |after|, other);
      ListedMore(us, Meaning(x, other));
      HasParts(s, next + |after|, ",", ElementsText(rest));
      ElementsRead(s, next + |after| + 1, us + [Meaning(x, other)], rest, other);
      assert (us + [Meaning(x, other)]) + Values(rest, other) == us + Values(es, other);
  }

  lemma ListEnd(s: string, i: nat, m: map<Key, Value>, n: nat, other: string -> bool)
    requires i <= |s| && At(s, SkipSpace(s, i), ']')
    ensures ArrayFrom(s, i, m, n, other) == Good(Table(m), SkipSpace(s, i) + 1)
  {
  }

  lemma ObjectEnd(s: string, i: nat, m: map<Key, Value>, other: string -> bool)
    requires i <= |s| && At(s, SkipSpace(s, i), '}')
    ensures ObjectFrom(s, i, m, other) == Good(Table(m), SkipSpace(s, i) + 1)
  {
  }

  lemma FieldTurn(s: string, i: nat, j: nat, m: map<Key, Value>, name: string, v: Value, next: nat, k: nat,
      other: string -> bool)
    requires i <= |s| && SkipSpace(s, i) == j && !At(s, j, '}') && ParseMember(s, j, other) == Good((name, v), next)
    requires SkipSpace(s, next) == k
    ensures ObjectFrom(s, i, m, other) ==
            if At(s, k, '}') then Good(Table(Put(m, Name(name), v)), k + 1)
            else if At(s, k, ',') then ObjectFrom(s, k + 1, Put(m, Name(name), v), other)
            else Bad(k + 1)
  {
    hide ParseMember, SkipSpace;
  }

  lemma MemberRead(s: string, j: nat, name: string, next: nat, v: Value, end: nat, other: string -> bool)
    requires At(s, j, '\"') && ParseString(s, j) == Good(name, next) && At(s, SkipSpace(s, next), ':')
    requires Parse(s, SkipSpace(s, SkipSpace(s, next) + 1), other) == Good(v, end)
    ensures ParseMember(s, j, other) == Good((name, v), end)
  {
    hide Parse, ParseString, SkipSpace;
  }

  lemma FieldParts(f: Field, tail: string)
    ensures FieldText(f) + tail ==
            f.before + (QuotedText(f.name) + (f.beforeColon + (":" + (f.afterColon + (Text(f.x) + tail)))))
    ensures |FieldText(f)| ==
            |f.before| + |QuotedText(f.name)| + |f.beforeColon| + 1 + |f.afterColon| + |Text(f.x)|
  {
    hide QuotedText, Text;
    var c := f.afterColon + Text(f.x);
    assert c + tail == f.afterColon + (Text(f.x) + tail);
    var b := f.beforeColon + (":" + c);
    assert b + tail == f.beforeColon + (":" + (c + tail));
    var a := QuotedText(f.name) + b;
    assert a + tail == QuotedText(f.name) + (b + tail);
    assert f.before + a + tail == f.before + (a + tail);
  }

  /** Where the parts of a field stand, in front of `tail`. */
  lemma FieldLayout(s: string, i: nat, f: Field, tail: string, other: string -> bool)
    requires Has(s, i, FieldText(f) + tail) && FieldOk(f, other)
    ensures var j := i + |f.before|; var n := j + |QuotedText(f.name)|;
            var c := n + |f.beforeColon|; var k := c + 1 + |f.afterColon|;
            && SkipSpace(s, i) == j && !At(s, j, '}') && Has(s, j, QuotedText(f.name))
            && n <= |s| && SkipSpace(s, n) == c && At(s, c, ':') && c + 1 <= |s| && SkipSpace(s, c + 1) == k
            && Has(s, k, Text(f.x)) && k + |Text(f.x)| == i + |FieldText(f)| && Has(s, i + |FieldText(f)|, tail)
  {
    hide Has, Text, FieldText, SkipSpace, QuotedText, NodeOk, Spaces, Said;
    var q, t := QuotedText(f.name), Text(f.x);
    FieldParts(f, tail);
    QuotedStart(f.name);
    SkipTo(s, i, f.before, q + (f.beforeColon + (":" + (f.afterColon + (t + tail)))));
    var j := i + |f.before|;
    HasParts(s, j, q, f.beforeColon + (":" + (f.afterColon + (t + tail))));
    FieldMiddle(s, j + |q|, f, tail, other);
  }

  lemma FieldMiddle(s: string, n: nat, f: Field, tail: string, other: string -> bool)
    requires Has(s, n, f.beforeColon + (":" + (f.afterColon + (Text(f.x) + tail)))) && FieldOk(f, other)
    ensures var c := n + |f.beforeColon|; var k := c + 1 + |f.afterColon|;
            && n <= |s| && SkipSpace(s, n) == c && At(s, c, ':') && c + 1 <= |s| && SkipSpace(s, c + 1) == k
            && Has(s, k, Text(f.x)) && Has(s, k + |Text(f.x)|, tail)
  {
    hide Has, Text, SkipSpace, NodeOk, Spaces, Said;
    var t := Text(f.x);
    SkipTo(s, n, f.beforeColon, ":" + (f.afterColon + (t + tail)));
    var c := n + |f.beforeColon|;
    HasParts(s, c, ":", f.afterColon + (t + tail));
    NodeStart(f.x, other);
    SkipTo(s, c + 1, f.afterColon, t + tail);
    HasParts(s, c + 1 + |f.afterColon|, t, tail);
  }

  /** A field in front of `rest`. */
  lemma FieldRead(s: string, i: nat, f: Field, after: string, rest: string, other: string -> bool)
    requires Has(s, i, FieldText(f) + (after + rest))
    requires FieldOk(f, other) && Spaces(after) && rest != "" && (rest[0] == '}' || rest[0] == ',')
    ensures var j := i + |f.before|; var next := i + |FieldText(f)|;
            && SkipSpace(s, i) == j && !At(s, j, '}') && next <= |s|
            && ParseMember(s, j, other) == Good((Content(f.name), Meaning(f.x, other)), next)
            && SkipSpace(s, next) == next + |after| && Has(s, next + |after|, rest) && At(s, next + |after|, rest[0])
    decreases f
  {
    hide Has, Text, FieldText, SkipSpace, QuotedText, Parse, ParseString, ParseMember, Meaning, Content, NodeOk,
        Spaces, Said;
    FieldLayout(s, i, f, after + rest, other);
    var next := i + |FieldText(f)|;
    var n := i + |f.before| + |QuotedText(f.name)|;
    QuotedRead(s, i + |f.before|, f.name);
    SkipTo(s, next, after, rest);
    NodeRead(s, n + |f.beforeColon| + 1 + |f.afterColon|, f.x, other);
    MemberRead(s, i + |f.before|, Content(f.name), n, Meaning(f.x, other), next, other);
  }

  lemma QuotedStart(xs: seq<Item>)
    ensures QuotedText(xs) != "" && QuotedText(xs)[0] == '\"'
  {
  }

  lemma {:induction false} FieldsRead(s: string, i: nat, ps: seq<(string, Value)>, fs: Fields, other: string -> bool)
    requires FieldsOk(fs, other) && Has(s, i, FieldsText(fs))
    ensures i <= |s| && ObjectFrom(s, i, Named(ps), other) ==
                        Good(Table(Named(ps + Pairs(fs, other))), i + |FieldsText(fs)|)
    decreases fs, 1
  {
    hide Has, FieldText, ParseMember, ObjectFrom, SkipSpace, Named, FieldOk, Spaces, Put, Meaning, Content;
    match fs
    case NoField(space) =>
      SkipTo(s, i, space, "}");
      ObjectEnd(s, i, Named(ps), other);
      assert ps + [] == ps;
    case LastField(f, after) =>
      FieldRead(s, i, f, after, "}", other);
      var next := i + |FieldText(f)|;
      FieldTurn(s, i, i + |f.before|, Named(ps), Content(f.name), Meaning(f.x, other), next, next + |after|, other);
      NamedMore(ps, Content(f.name), Meaning(f.x, other));
    case NextField(f, after, rest) =>
      FieldRead(s, i, f, after, "," + FieldsText(rest), other);
      var next := i + |FieldText(f)|;
      var p := (Content(f.name), Meaning(f.x, other));
      FieldTurn(s, i, i + |f.before|, Named(ps), p.0, p.1, next, next + |after|, other);
      NamedMore(ps, p.0, p.1);
      HasParts(s, next + |after|, ",", FieldsText(rest));
      FieldsRead(s, next + |after| + 1, ps + [p], rest, other);
      assert (ps + [p]) + Pairs(rest, other) == ps + Pairs(fs, other);
  }

  lemma WordFound(s: string, i: nat, other: string -> bool) returns (text: string)
    requires i < |s| && ('0' <= s[i] <= '9' || s[i] == '-' || s[i] == 't' || s[i] == 'f' || s[i] == 'n')
    requires Parse(s, i, other).Good?
    ensures WordOk(text, other) && Has(s, i, text) && Delimited(s, i + |text|)
  {
    hide ToNumber;
    text := s[i..NextChar(s, i, DELIMITERS, false)];
    UnbrokenIsPlain(text);
    assert text[0] == s[i];
  }

  lemma QuotedFound(s: string, i: nat) returns (xs: seq<Item>)
    requires At(s, i, '\"') && ParseString(s, i).Good?
    ensures Said(xs).Bytes? && Has(s, i, QuotedText(xs)) && ParseString(s, i).next == i + |QuotedText(xs)|
  {
    hide Has, SpelledAll, Said, ParseString;
    var r := ParseString(s, i);
    StringGrammar(s, i, r.value, r.next);
    xs :| Has(s, i + 1, SpelledAll(xs) + "\"") && Said(xs) == Bytes(r.value) && r.next == i + |SpelledAll(xs)| + 2;
    CharacterHas(s, i, '\"');
    HasBoth(s, i, "\"", SpelledAll(xs) + "\"");
  }

  lemma CharacterHas(s: string, i: nat, c: char)
    requires At(s, i, c)
    ensures Has(s, i, [c])
  {
  }

  /** Whatever is read is a text of the grammar, and it is read as what it
      means. */
  lemma {:induction false} NodeFound(s: string, i: nat, other: string -> bool) returns (x: Node)
    requires i <= |s| && Parse(s, i, other).Good?
    ensures NodeOk(x, other) && Has(s, i, Text(x)) && (x.Word? ==> Delimited(s, i + |Text(x)|))
    ensures Parse(s, i, other) == Good(Meaning(x, other), i + |Text(x)|)
    decreases |s| - i, 1
  {
    hide Has, WordOk, ToNumber, ParseString, Said, QuotedText, ArrayFrom, ObjectFrom, ElementsText, FieldsText, Meaning;
    if s[i] == '\"' {
      var xs := QuotedFound(s, i);
      x := Quoted(xs);
    } else if s[i] == '[' {
      var es := ElementsFound(s, i + 1, map[], 1, other);
      CharacterHas(s, i, '[');
      HasBoth(s, i, "[", ElementsText(es));
      x := List(es);
    } else if s[i] == '{' {
      var fs := FieldsFound(s, i + 1, map[], other);
      CharacterHas(s, i, '{');
      HasBoth(s, i, "{", FieldsText(fs));
      x := Object(fs);
    } else {
      var text := WordFound(s, i, other);
      x := Word(text);
    }
    NodeRead(s, i, x, other);
  }

  lemma {:induction false} ElementsFound(s: string, i: nat, m: map<Key, Value>, n: nat, other: string -> bool)
    returns (es: Elements)
    requires i <= |s| && ArrayFrom(s, i, m, n, other).Good?
    ensures ElementsOk(es, other) && Has(s, i, ElementsText(es))
    ensures ArrayFrom(s, i, m, n, other).next == i + |ElementsText(es)|
    decreases |s| - i, 2
  {
    hide Has, Text, Parse, SkipSpace, NodeOk, Spaces, Put, Meaning, ArrayFrom;
    var before := SpacesFound(s, i);
    var j := i + |before|;
    if At(s, j, ']') {
      ListEnd(s, i, m, n, other);
      CharacterHas(s, j, ']');
      HasBoth(s, i, before, "]");
      es := NoElement(before);
    } else {
      ElementInside(s, i, j, m, n, other);
      var x := NodeFound(s, j, other);
      var next := j + |Text(x)|;
      var after := SpacesFound(s, next);
      var k := next + |after|;
      ElementTurn(s, i, j, m, n, Meaning(x, other), next, k, other);
      if At(s, k, ']') {
        CharacterHas(s, k, ']');
        es := LastElement(before, x, after);
        HasThree(s, i, before, Text(x), after, "]");
      } else {
        var rest := ElementsFound(s, k + 1, Put(m, Index(n), Meaning(x, other)), n + 1, other);
        CharacterHas(s, k, ',');
        HasBoth(s, k, ",", ElementsText(rest));
        es := NextElement(before, x, after, rest);
        HasThree(s, i, before, Text(x), after, "," + ElementsText(rest));
      }
    }
  }

  lemma HasThree(s: string, i: nat, a: string, b: string, c: string, d: string)
    requires Has(s, i, a) && Has(s, i + |a|, b) && Has(s, i + |a| + |b|, c) && Has(s, i + |a| + |b| + |c|, d)
    ensures Has(s, i, a + (b + (c + d)))
  {
    hide Has;
    HasBoth(s, i + |a| + |b|, c, d);
    HasBoth(s, i + |a|, b, c + d);
    HasBoth(s, i, a, b + (c + d));
  }

  lemma ElementInside(s: string, i: nat, j: nat, m: map<Key, Value>, n: nat, other: string -> bool)
    requires i <= |s| && SkipSpace(s, i) == j && !At(s, j, ']') && ArrayFrom(s, i, m, n, other).Good?
    ensures j <= |s| && Parse(s, j, other).Good?
  {
    hide Parse, SkipSpace;
  }

  lemma FieldInside(s: string, i: nat, j: nat, m: map<Key, Value>, other: string -> bool)
    requires i <= |s| && SkipSpace(s, i) == j && !At(s, j, '}') && ObjectFrom(s, i, m, other).Good?
    ensures At(s, j, '\"') && ParseMember(s, j, other).Good?
  {
    hide Parse, SkipSpace, ParseString;
  }

  lemma MemberInside(s: string, j: nat, other: string -> bool) returns (n: nat, c: nat)
    requires At(s, j, '\"') && ParseMember(s, j, other).Good?
    ensures ParseString(s, j).Good? && ParseString(s, j).next == n <= |s| && SkipSpace(s, n) == c && At(s, c, ':')
    ensures Parse(s, SkipSpace(s, c + 1), other).Good?
    ensures ParseMember(s, j, other).next == Parse(s, SkipSpace(s, c + 1), other).next
  {
    hide Parse, SkipSpace, ParseString;
    n := ParseString(s, j).next;
    c := SkipSpace(s, n);
  }

  lemma {:induction false} FieldFound(s: string, i: nat, before: string, other: string -> bool) returns (f: Field)
    requires Has(s, i, before) && Spaces(before)
    requires At(s, i + |before|, '\"') && ParseMember(s, i + |before|, other).Good?
    ensures FieldOk(f, other) && f.before == before && Has(s, i, FieldText(f))
    ensures ParseMember(s, i + |before|, other).next == i + |FieldText(f)|
    decreases |s| - i, 2
  {
    hide Has, Text, Parse, SkipSpace, NodeOk, Spaces, Meaning, ParseString, ParseMember, Said, QuotedText;
    var j := i + |before|;
    var n, c := MemberInside(s, j, other);
    var xs := QuotedFound(s, j);
    var q := QuotedText(xs);
    var w := SpacesFound(s, n);
    var v := SpacesFound(s, c + 1);
    var k := c + 1 + |v|;
    var x := NodeFound(s, k, other);
    f := Field(before, xs, w, v, x);
    CharacterHas(s, c, ':');
    HasBoth(s, k - |v|, v, Text(x));
    HasThree(s, j, q, w, ":", v + Text(x));
    HasBoth(s, i, before, q + (w + (":" + (v + Text(x)))));
  }

  lemma {:induction false} FieldsFound(s: string, i: nat, m: map<Key, Value>, other: string -> bool)
    returns (fs: Fields)
    requires i <= |s| && ObjectFrom(s, i, m, other).Good?
    ensures FieldsOk(fs, other) && Has(s, i, FieldsText(fs))
    ensures ObjectFrom(s, i, m, other).next == i + |FieldsText(fs)|
    decreases |s| - i, 3
  {
    hide Has, FieldText, SkipSpace, FieldOk, Spaces, Put, Meaning, ParseMember, ObjectFrom;
    var before := SpacesFound(s, i);
    var j := i + |before|;
    if At(s, j, '}') {
      ObjectEnd(s, i, m, other);
      CharacterHas(s, j, '}');
      HasBoth(s, i, before, "}");
      fs := NoField(before);
    } else {
      FieldInside(s, i, j, m, other);
      var r := ParseMember(s, j, other);
      var f := FieldFound(s, i, before, other);
      var after := SpacesFound(s, r.next);
      var k := r.next + |after|;
      FieldTurn(s, i, j, m, r.value.0, r.value.1, r.next, k, other);
      if At(s, k, '}') {
        CharacterHas(s, k, '}');
        fs := LastField(f, after);
        HasFields(s, i, FieldText(f), after, "}");
      } else {
        var rest := FieldsFound(s, k + 1, Put(m, Name(r.value.0), r.value.1), other);
        CharacterHas(s, k, ',');
        HasBoth(s, k, ",", FieldsText(rest));
        fs := NextField(f, after, rest);
        HasFields(s, i, FieldText(f), after, "," + FieldsText(rest));
      }
    }
  }

  lemma HasFields(s: string, i: nat, a: string, b: string, c: string)
    requires Has(s, i, a) && Has(s, i + |a|, b) && Has(s, i + |a| + |b|, c)
    ensures Has(s, i, a + (b + c)) && |a + (b + c)| == |a| + |b| + |c|
  {
    hide Has;
    HasBoth(s, i + |a|, b, c);
    HasBoth(s, i, a, b + c);
  }

  /** `s` is the text of `x` with white space around it. */
  predicate IsText(s: string, before: string, x: Node, after: string, other: string -> bool) {
    Spaces(before) && NodeOk(x, other) && Spaces(after) && s == before + (Text(x) + after)
  }

  lemma TextRead(s: string, before: string, x: Node, after: string, other: string -> bool)
    requires IsText(s, before, x, after, other)
    ensures Decode(s, other) == Good(Meaning(x, other), |s|)
  {
    hide Has, Text, Parse, SkipSpace, NodeOk, Meaning, Spaces;
    assert Has(s, 0, s) by { WholeHas(s); }
    NodeStart(x, other);
    SkipTo(s, 0, before, Text(x) + after);
    var j := |before|;
    HasParts(s, j, Text(x), after);
    SpacesSkipped(s, j + |Text(x)|, after);
    AfterDelimits(s, j + |Text(x)|, after);
    NodeRead(s, j, x, other);
  }

  lemma WholeHas(s: string)
    ensures Has(s, 0, s)
  {
  }

  lemma AfterDelimits(s: string, i: nat, after: string)
    requires Has(s, i, after) && Spaces(after) && i + |after| == |s|
    ensures Delimited(s, i)
  {
    if after != "" {
      HasAt(s, i, after);
      assert s[i + 0] == after[0];
    }
  }

  lemma TextFound(s: string, other: string -> bool) returns (before: string, x: Node, after: string)
    requires Decode(s, other).Good?
    ensures IsText(s, before, x, after, other)
  {
    hide Has, Text, Parse, SkipSpace, NodeOk, Meaning, Spaces;
    before := SpacesFound(s, 0);
    x := NodeFound(s, |before|, other);
    var j := |before| + |Text(x)|;
    after := SpacesFound(s, j);
    HasBoth(s, |before|, Text(x), after);
    HasBoth(s, 0, before, Text(x) + after);
    assert s == before + (Text(x) + after) by { HasAll(s, before + (Text(x) + after)); }
  }

  lemma HasAll(s: string, text: string)
    requires Has(s, 0, text) && |text| == |s|
    ensures s == text
  {
  }

  /** `json.decode` accepts exactly the texts of the grammar, and returns what
      they mean. */
  lemma JsonGrammar(s: string, other: string -> bool, v: Value)
    ensures Decode(s, other) == Good(v, |s|) <==>
            exists before, x, after :: IsText(s, before, x, after, other) && v == Meaning(x, other)
    ensures Decode(s, other).Bad? <==> !exists before, x, after :: IsText(s, before, x, after, other)
  {
    hide IsText, Decode, Meaning;
    if Decode(s, other).Good? {
      var before, x, after := TextFound(s, other);
      TextRead(s, before, x, after, other);
    }
    forall before, x, after | IsText(s, before, x, after, other)
      ensures Decode(s, other) == Good(Meaning(x, other), |s|)
    {
      TextRead(s, before, x, after, other);
    }
  }

  /** A comma before the closing bracket is none too many. */
  lemma TrailingComma(other: string -> bool)
    ensures Decode("[true,]", other) == Good(Table(map[Index(1) := Bool(true)]), 7)
  {
    var x := List(NextElement("", Word("true"), "", NoElement("")));
    assert IsText("[true,]", "", x, "", other);
    TextRead("[true,]", "", x, "", other);
    assert Listed([Bool(true)] + []) == map[Index(1) := Bool(true)];
  }
}
