/** lib/json.lua as it is written: the loops of the encoder over one shared
    path set, and the loops of the decoder over the text. Each is proved to
    compute the function that specifies it. */
module JsonCodec {
  import opened JsonGraph
  import opened JsonParser
  import opened JsonText
  import opened JsonValues
  import opened Utf8

  /** The `stack` table that the encoder passes around. */
  class PathSet {
    var on: set<nat>

    constructor ()
      ensures on == {}
    {
      on := {};
    }
  }

  method Encode(h: Heap, v: Val, stack: PathSet) returns (r: Result<string>)
    modifies stack
    ensures r == EncodeVal(h, v, old(stack.on))
    ensures r.Ok? ==> stack.on == old(stack.on)
    decreases h.Keys - stack.on, 1
  {
    match v {
      case NilVal => r := Ok("null");
      case BoolVal(b) => r := Ok(if b then "true" else "false");
      case NumVal(n) => r := Ok(Decimal(n));
      case StrVal(s) => r := Ok(PrintString(s));
      case OtherVal => r := Err(UnexpectedType);
      case Ref(id) => r := EncodeTableLoop(h, id, stack);
    }
  }

  /** `encode_table`: a table is on the stack while its contents are encoded,
      and off it again afterwards. */
  method EncodeTableLoop(h: Heap, id: nat, stack: PathSet) returns (r: Result<string>)
    modifies stack
    ensures r == EncodeTable(h, id, old(stack.on))
    ensures r.Ok? ==> stack.on == old(stack.on)
    decreases h.Keys - stack.on, 0
  {
    hide Join, PrintString;
    ghost var before := stack.on;
    if id !in h {
      return Err(NoSuchTable);
    }
    if id in stack.on {
      return Err(Circular);
    }
    var t := h[id];
    stack.on := stack.on + {id};
    var res: seq<string> := [];
    if Lookup(t.entries, NumKey(1)) != NilVal || t.entries == [] {
      var n := 0;
      while n < |t.entries|
        invariant n <= |t.entries| && stack.on == before + {id}
        invariant forall i | 0 <= i < n :: Numeric(t.entries[i].key)
      {
        if !Numeric(t.entries[n].key) {
          return Err(InvalidKeys);
        }
        n := n + 1;
      }
      if n != t.border {
        return Err(SparseArray);
      }
      var i := 1;
      ghost var all := EncodeAll(h, Sequence(t.entries, 1), before + {id});
      PrependNothing(res, all);
      while Lookup(t.entries, NumKey(i)) != NilVal
        invariant stack.on == before + {id}
        invariant all == Prepended(res, EncodeAll(h, Sequence(t.entries, i), before + {id}))
        decreases KeysFrom(t.entries, i)
      {
        LookupHits(t.entries, NumKey(i));
        assert NumKey(i) in KeysFrom(t.entries, i) && NumKey(i) !in KeysFrom(t.entries, i + 1);
        NextElement(h, t.entries, i, before + {id}, res);
        var p := Encode(h, Lookup(t.entries, NumKey(i)), stack);
        if p.Err? {
          return Err(p.error);
        }
        res := res + [p.value];
        i := i + 1;
      }
      PrependNothing(res, all);
      stack.on := stack.on - {id};
      r := Ok("[" + Join(res) + "]");
    } else {
      var i := 0;
      ghost var all := EncodeEntries(h, t.entries, before + {id});
      PrependNothing(res, all);
      assert t.entries[0..] == t.entries;
      while i < |t.entries|
        invariant i <= |t.entries| && stack.on == before + {id}
        invariant all == Prepended(res, EncodeEntries(h, t.entries[i..], before + {id}))
      {
        NextEntry(h, t.entries, i, before + {id}, res);
        var e := t.entries[i];
        if !e.key.StrKey? {
          return Err(InvalidKeys);
        }
        var p := Encode(h, e.value, stack);
        if p.Err? {
          return Err(p.error);
        }
        res := res + [PrintString(e.key.s) + ":" + p.value];
        i := i + 1;
      }
      PrependNothing(res, all);
      stack.on := stack.on - {id};
      r := Ok("{" + Join(res) + "}");
    }
  }

  function Prepended(ps: seq<string>, r: Result<seq<string>>): Result<seq<string>> {
    match r
    case Err(e) => Err(e)
    case Ok(qs) => Ok(ps + qs)
  }

  lemma PrependNothing(ps: seq<string>, r: Result<seq<string>>)
    ensures Prepended([], r) == r && Prepended(ps, Ok([])) == Ok(ps)
  {
    if r.Ok? {
      assert [] + r.value == r.value;
    }
    assert ps + [] == ps;
  }

  lemma NextElement(h: Heap, es: seq<Entry>, i: int, path: set<nat>, res: seq<string>)
    requires Lookup(es, NumKey(i)) != NilVal
    ensures
      var p := EncodeVal(h, Lookup(es, NumKey(i)), path);
      Prepended(res, EncodeAll(h, Sequence(es, i), path)) ==
      if p.Err? then Err(p.error) else Prepended(res + [p.value], EncodeAll(h, Sequence(es, i + 1), path))
  {
    hide EncodeVal;
    var v, rest := Lookup(es, NumKey(i)), Sequence(es, i + 1);
    assert Sequence(es, i)[1..] == rest;
    var p, ps := EncodeVal(h, v, path), EncodeAll(h, rest, path);
    if p.Ok? && ps.Ok? {
      assert res + ([p.value] + ps.value) == res + [p.value] + ps.value;
    }
  }

  lemma NextEntry(h: Heap, es: seq<Entry>, i: nat, path: set<nat>, res: seq<string>)
    requires i < |es|
    ensures
      var p := EncodeVal(h, es[i].value, path);
      Prepended(res, EncodeEntries(h, es[i..], path)) ==
      if !es[i].key.StrKey? then Err(InvalidKeys)
      else if p.Err? then Err(p.error)
      else Prepended(res + [PrintString(es[i].key.s) + ":" + p.value], EncodeEntries(h, es[i + 1..], path))
  {
    hide EncodeVal, PrintString;
    assert es[i..][1..] == es[i + 1..];
    var p, ps := EncodeVal(h, es[i].value, path), EncodeEntries(h, es[i + 1..], path);
    if es[i].key.StrKey? && p.Ok? && ps.Ok? {
      var piece := PrintString(es[i].key.s) + ":" + p.value;
      assert res + ([piece] + ps.value) == res + [piece] + ps.value;
    }
  }

  /** `json.encode(val)` */
  method JsonEncode(h: Heap, v: Val) returns (r: Result<string>)
    ensures r == EncodeVal(h, v, {})
  {
    var stack := new PathSet();
    r := Encode(h, v, stack);
  }

  /** `next_char` */
  method NextCharLoop(s: string, start: nat, chars: set<char>, negate: bool) returns (i: nat)
    requires start <= |s|
    ensures i == NextChar(s, start, chars, negate)
  {
    i := start;
    while i < |s|
      invariant start <= i <= |s|
      invariant NextChar(s, start, chars, negate) == NextChar(s, i, chars, negate)
    {
      if (s[i] in chars) != negate {
        return;
      }
      i := i + 1;
    }
  }

  /** `parse_string`: characters are not copied one by one, but in runs from
      `k` to the next escape or the closing quote. */
  method ParseStringLoop(s: string, i: nat) returns (r: Parsed<string>)
    requires i < |s|
    ensures r == ParseString(s, i)
  {
    hide HexAt, ParseUnicodeEscape;
    var res := "";
    var j := i + 1;
    var k := j;
    assert res + s[k..j] == "";
    while j < |s|
      invariant i + 1 <= k <= j <= |s|
      invariant ParseString(s, i) == StringFrom(s, i, j, res + s[k..j])
      decreases |s| - j
    {
      var x := s[j];
      if x as int < 32 {
        return Bad(j);
      } else if x == '\\' {
        res := res + s[k..j];
        if j + 1 < |s| && s[j + 1] == 'u' {
          var hex := HexAt(s, j + 2);
          if hex == "" {
            return Bad(j);
          }
          match ParseUnicodeEscape(hex) {
            case Bytes(b) => res := res + b;
            case Invalid => return Bad(j);
          }
          j := j + 1 + |hex|;
        } else {
          if j + 1 >= |s| || s[j + 1] !in ESCAPES {
            return Bad(j);
          }
          res := res + [ESCAPES[s[j + 1]]];
          j := j + 1;
        }
        k := j + 1;
        assert res + s[k..j + 1] == res;
      } else if x == '\"' {
        return Good(res + s[k..j], j + 1);
      } else {
        assert res + s[k..j] + [x] == res + s[k..j + 1];
      }
      j := j + 1;
    }
    r := Bad(i);
  }

  /** `parse` */
  method ParseText(s: string, i: nat, other: string -> bool) returns (r: Parsed<Value>)
    requires i <= |s|
    ensures r == Parse(s, i, other)
    decreases |s| - i, 1
  {
    if i == |s| {
      return Bad(i);
    }
    var c := s[i];
    if c == '\"' {
      var str := ParseStringLoop(s, i);
      r := if str.Good? then Good(Str(str.value), str.next) else Bad(str.at);
    } else if '0' <= c <= '9' || c == '-' {
      r := ParseNumber(s, i, other);
    } else if c == 't' || c == 'f' || c == 'n' {
      r := ParseLiteral(s, i);
    } else if c == '[' {
      r := ParseArrayLoop(s, i, other);
    } else if c == '{' {
      r := ParseObjectLoop(s, i, other);
    } else {
      r := Bad(i);
    }
  }

  lemma ArrayTurn(s: string, i: nat, m: map<Key, Value>, n: nat, other: string -> bool)
    requires i <= |s|
    ensures ArrayFrom(s, i, m, n, other) ==
            var i := SkipSpace(s, i);
            if At(s, i, ']') then Good(Table(m), i + 1)
            else
              match Parse(s, i, other)
              case Bad(at) => Bad(at)
              case Good(x, next) =>
                var i := SkipSpace(s, next);
                if At(s, i, ']') then Good(Table(Put(m, Index(n), x)), i + 1)
                else if At(s, i, ',') then ArrayFrom(s, i + 1, Put(m, Index(n), x), n + 1, other)
                else Bad(i + 1)
  {
    hide Parse, Put, SkipSpace;
  }

  /** `parse_array` */
  method ParseArrayLoop(s: string, start: nat, other: string -> bool) returns (r: Parsed<Value>)
    requires start < |s|
    ensures r == ArrayFrom(s, start + 1, map[], 1, other)
    decreases |s| - start, 0
  {
    hide Parse, ArrayFrom, Put, NextChar;
    var res: map<Key, Value> := map[];
    var n := 1;
    var i := start + 1;
    while true
      invariant start < i <= |s|
      invariant ArrayFrom(s, start + 1, map[], 1, other) == ArrayFrom(s, i, res, n, other)
      decreases |s| - i
    {
      ArrayTurn(s, i, res, n, other);
      i := NextCharLoop(s, i, SPACES, true);
      if At(s, i, ']') {
        return Good(Table(res), i + 1);
      }
      var x := ParseText(s, i, other);
      if x.Bad? {
        return Bad(x.at);
      }
      res := Put(res, Index(n), x.value);
      n := n + 1;
      i := NextCharLoop(s, x.next, SPACES, true);
      if At(s, i, ']') {
        return Good(Table(res), i + 1);
      }
      if !At(s, i, ',') {
        return Bad(i + 1);
      }
      i := i + 1;
    }
  }

  /** `parse_object` */
  method ParseObjectLoop(s: string, start: nat, other: string -> bool) returns (r: Parsed<Value>)
    requires start < |s|
    ensures r == ObjectFrom(s, start + 1, map[], other)
    decreases |s| - start, 0
  {
    hide ParseMember, Put, NextChar;
    var res: map<Key, Value> := map[];
    var i := start + 1;
    while true
      invariant start < i <= |s|
      invariant ObjectFrom(s, start + 1, map[], other) == ObjectFrom(s, i, res, other)
      decreases |s| - i
    {
      i := NextCharLoop(s, i, SPACES, true);
      if At(s, i, '}') {
        return Good(Table(res), i + 1);
      }
      var m := ParseObjectMember(s, i, other);
      if m.Bad? {
        return Bad(m.at);
      }
      res := Put(res, Name(m.value.0), m.value.1);
      i := NextCharLoop(s, m.next, SPACES, true);
      if At(s, i, '}') {
        return Good(Table(res), i + 1);
      }
      if !At(s, i, ',') {
        return Bad(i + 1);
      }
      i := i + 1;
    }
  }

  /** The key and the value in one pass of `parse_object`. */
  method ParseObjectMember(s: string, start: nat, other: string -> bool) returns (r: Parsed<(string, Value)>)
    requires start <= |s|
    ensures r == ParseMember(s, start, other)
    decreases |s| - start, 0
  {
    hide Parse, ParseString, NextChar;
    if !At(s, start, '\"') {
      return Bad(start);
    }
    var key := ParseStringLoop(s, start);
    if key.Bad? {
      return Bad(key.at);
    }
    var i := NextCharLoop(s, key.next, SPACES, true);
    if !At(s, i, ':') {
      return Bad(i);
    }
    i := NextCharLoop(s, i + 1, SPACES, true);
    var x := ParseText(s, i, other);
    r := if x.Good? then Good((key.value, x.value), x.next) else Bad(x.at);
  }

  /** `json.decode(str)`: every text gives a value or an error. */
  method JsonDecode(s: string, other: string -> bool) returns (r: Parsed<Value>)
    ensures r == Decode(s, other)
  {
    var i := NextCharLoop(s, 0, SPACES, true);
    var x := ParseText(s, i, other);
    if x.Bad? {
      return Bad(x.at);
    }
    i := NextCharLoop(s, x.next, SPACES, true);
    r := if i < |s| then Bad(i) else Good(x.value, i);
  }
}
