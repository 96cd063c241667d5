/** The decoder of lib/json.lua as functions on positions: `parse` and all of
    `parse_*`, `next_char` and `json.decode`. Positions count from 0, and the
    end of the text reads as no character. */
module JsonParser {
  import opened JsonValues
  import opened Utf8

  /** A value and the position behind it, or the position of the error. */
  datatype Parsed<T> = Good(value: T, next: nat) | Bad(at: nat)

  const SPACES: set<char> := {' ', '\t', '\r', '\n'}
  const DELIMITERS: set<char> := {' ', '\t', '\r', '\n', ']', '}', ','}

  predicate At(s: string, i: nat, c: char) {
    i < |s| && s[i] == c
  }

  /** `next_char(str, i, set, negate)` */
  function NextChar(s: string, i: nat, chars: set<char>, negate: bool): (r: nat)
    requires i <= |s|
    ensures i <= r <= |s|
    ensures forall k | i <= k < r :: (s[k] in chars) == negate
    ensures r < |s| ==> (s[r] in chars) != negate
    decreases |s| - i
  {
    if i == |s| || (s[i] in chars) != negate then i else NextChar(s, i + 1, chars, negate)
  }

  function SkipSpace(s: string, i: nat): (r: nat)
    requires i <= |s|
    ensures i <= r <= |s|
  {
    NextChar(s, i, SPACES, true)
  }

  /** The characters that may follow a backslash, other than `u`. */
  const ESCAPES: map<char, char> :=
    map['\\' := '\\', '/' := '/', '\"' := '\"', 'b' := 8 as char, 'f' := 12 as char, 'n' := '\n', 'r' := '\r',
        't' := '\t']

  /** The digits `parse_string` matches behind `\u` at position `i`. */
  function HexAt(s: string, i: nat): (hex: string)
    ensures hex != "" ==> i + |hex| <= |s| && (PairPattern(hex) || SinglePattern(hex))
  {
    if i + 10 <= |s| && PairPattern(s[i..i + 10]) then s[i..i + 10]
    else if i + 4 <= |s| && SinglePattern(s[i..i + 4]) then s[i..i + 4]
    else ""
  }

  /** `parse_string(str, start)` from position `j` on, with `res` read so far. */
  function StringFrom(s: string, start: nat, j: nat, res: string): (r: Parsed<string>)
    ensures r.Good? ==> j < r.next <= |s|
    decreases |s| - j
  {
    if j >= |s| then Bad(start)
    else if s[j] as int < 32 then Bad(j)
    else if s[j] == '\\' then
      if At(s, j + 1, 'u') then
        var hex := HexAt(s, j + 2);
        if hex == "" then Bad(j)
        else
          match ParseUnicodeEscape(hex)
          case Bytes(b) => StringFrom(s, start, j + 2 + |hex|, res + b)
          case Invalid => Bad(j)
      else if j + 1 < |s| && s[j + 1] in ESCAPES then StringFrom(s, start, j + 2, res + [ESCAPES[s[j + 1]]])
      else Bad(j)
    else if s[j] == '\"' then Good(res, j + 1)
    else StringFrom(s, start, j + 1, res + [s[j]])
  }

  function ParseString(s: string, i: nat): (r: Parsed<string>)
    ensures r.Good? ==> i < r.next <= |s|
  {
    StringFrom(s, i, i + 1, "")
  }

  function ParseNumber(s: string, i: nat, other: string -> bool): (r: Parsed<Value>)
    requires i < |s| && s[i] !in DELIMITERS
    ensures r.Good? ==> i < r.next <= |s|
  {
    var x := NextChar(s, i, DELIMITERS, false);
    var n := ToNumber(s[i..x], other);
    if n == Nil then Bad(i) else Good(n, x)
  }

  function ParseLiteral(s: string, i: nat): (r: Parsed<Value>)
    requires i < |s| && s[i] !in DELIMITERS
    ensures r.Good? ==> i < r.next <= |s|
  {
    var x := NextChar(s, i, DELIMITERS, false);
    var word := s[i..x];
    if word == "true" then Good(Bool(true), x)
    else if word == "false" then Good(Bool(false), x)
    else if word == "null" then Good(Nil, x)
    else Bad(i)
  }

  /** `parse_array` before the token at `i`, with the table filled up to `n`. */
  function ArrayFrom(s: string, i: nat, res: map<Key, Value>, n: nat, other: string -> bool): (r: Parsed<Value>)
    requires i <= |s|
    ensures r.Good? ==> i < r.next <= |s|
    decreases |s| - i, 1
  {
    var i := SkipSpace(s, i);
    if At(s, i, ']') then Good(Table(res), i + 1)
    else
      match Parse(s, i, other)
      case Bad(at) => Bad(at)
      case Good(x, next) =>
        var i := SkipSpace(s, next);
        if At(s, i, ']') then Good(Table(Put(res, Index(n), x)), i + 1)
        else if At(s, i, ',') then ArrayFrom(s, i + 1, Put(res, Index(n), x), n + 1, other)
        else Bad(i + 1)
  }

  /** A key, a colon and a value, as `parse_object` reads them from `i` on. */
  function ParseMember(s: string, i: nat, other: string -> bool): (r: Parsed<(string, Value)>)
    requires i <= |s|
    ensures r.Good? ==> i < r.next <= |s|
    decreases |s| - i, 0
  {
    if !At(s, i, '\"') then Bad(i)
    else
      match ParseString(s, i)
      case Bad(at) => Bad(at)
      case Good(key, next) =>
        var i := SkipSpace(s, next);
        if !At(s, i, ':') then Bad(i)
        else
          match Parse(s, SkipSpace(s, i + 1), other)
          case Bad(at) => Bad(at)
          case Good(x, next) => Good((key, x), next)
  }

  /** `parse_object` before the key at `i`. */
  function ObjectFrom(s: string, i: nat, res: map<Key, Value>, other: string -> bool): (r: Parsed<Value>)
    requires i <= |s|
    ensures r.Good? ==> i < r.next <= |s|
    decreases |s| - i, 1
  {
    var i := SkipSpace(s, i);
    if At(s, i, '}') then Good(Table(res), i + 1)
    else
      match ParseMember(s, i, other)
      case Bad(at) => Bad(at)
      case Good((key, x), next) =>
        var i := SkipSpace(s, next);
        if At(s, i, '}') then Good(Table(Put(res, Name(key), x)), i + 1)
        else if At(s, i, ',') then ObjectFrom(s, i + 1, Put(res, Name(key), x), other)
        else Bad(i + 1)
  }

  /** `parse(str, i)` */
  function Parse(s: string, i: nat, other: string -> bool): (r: Parsed<Value>)
    requires i <= |s|
    ensures r.Good? ==> i < r.next <= |s|
    decreases |s| - i, 0
  {
    if i == |s| then Bad(i)
    else
      var c := s[i];
      if c == '\"' then
        match ParseString(s, i)
        case Bad(at) => Bad(at)
        case Good(x, next) => Good(Str(x), next)
      else if '0' <= c <= '9' || c == '-' then ParseNumber(s, i, other)
      else if c == 't' || c == 'f' || c == 'n' then ParseLiteral(s, i)
      else if c == '[' then ArrayFrom(s, i + 1, map[], 1, other)
      else if c == '{' then ObjectFrom(s, i + 1, map[], other)
      else Bad(i)
  }

  /** `json.decode(str)` */
  function Decode(s: string, other: string -> bool): Parsed<Value> {
    match Parse(s, SkipSpace(s, 0), other)
    case Bad(at) => Bad(at)
    case Good(x, next) =>
      var i := SkipSpace(s, next);
      if i < |s| then Bad(i) else Good(x, i)
  }
}
