/** The encoder of lib/json.lua on Lua tables as they are in memory: a graph,
    possibly with sharing and cycles, walked with the set of tables on the
    current path. */
module JsonGraph {
  import opened JsonText
  import opened JsonValues

  datatype Val =
    | NilVal
    | BoolVal(b: bool)
    | NumVal(n: SmallInt)
    | StrVal(s: string)
    | Ref(id: nat)
    | OtherVal  // a function, userdata or thread

  datatype TableKey = NumKey(i: int) | FractionKey(text: string) | StrKey(s: string) | OtherKey(tag: nat)

  datatype Entry = Entry(key: TableKey, value: Val)

  /** A table: its entries in the order `pairs` visits them, and the border
      that the length operator `#` returns. */
  datatype LuaTable = LuaTable(entries: seq<Entry>, border: nat)

  type Heap = map<nat, LuaTable>

  datatype Error = Circular | InvalidKeys | SparseArray | UnexpectedType | NoSuchTable

  datatype Result<T> = Ok(value: T) | Err(error: Error)

  function Lookup(es: seq<Entry>, k: TableKey): Val {
    if es == [] then NilVal else if es[0].key == k then es[0].value else Lookup(es[1..], k)
  }

  /** The integer keys from `i` on. */
  function KeysFrom(es: seq<Entry>, i: int): set<TableKey> {
    set e | e in es && e.key.NumKey? && e.key.i >= i :: e.key
  }

  lemma {:induction false} LookupHits(es: seq<Entry>, k: TableKey)
    ensures Lookup(es, k) != NilVal ==> exists j :: 0 <= j < |es| && es[j] == Entry(k, Lookup(es, k))
  {
    if es != [] && es[0].key != k && Lookup(es, k) != NilVal {
      LookupHits(es[1..], k);
      var j :| 0 <= j < |es[1..]| && es[1..][j] == Entry(k, Lookup(es, k));
      assert es[j + 1] == Entry(k, Lookup(es, k));
    }
  }

  /** What `ipairs` visits from index `i` on. */
  function Sequence(es: seq<Entry>, i: int): seq<Val>
    decreases KeysFrom(es, i)
  {
    var v := Lookup(es, NumKey(i));
    if v == NilVal then []
    else
      LookupHits(es, NumKey(i));
      assert NumKey(i) in KeysFrom(es, i) && NumKey(i) !in KeysFrom(es, i + 1);
      [v] + Sequence(es, i + 1)
  }

  predicate Numeric(k: TableKey) {
    k.NumKey? || k.FractionKey?
  }

  predicate AllNumeric(es: seq<Entry>) {
    forall i | 0 <= i < |es| :: Numeric(es[i].key)
  }

  /** `encode(val, stack)`, with `path` for the tables on the stack. */
  function EncodeVal(h: Heap, v: Val, path: set<nat>): Result<string>
    decreases h.Keys - path, 1, 0
  {
    match v
    case NilVal => Ok("null")
    case BoolVal(b) => Ok(if b then "true" else "false")
    case NumVal(n) => Ok(Decimal(n))
    case StrVal(s) => Ok(PrintString(s))
    case OtherVal => Err(UnexpectedType)
    case Ref(id) => EncodeTable(h, id, path)
  }

  /** `encode_table(val, stack)` */
  function EncodeTable(h: Heap, id: nat, path: set<nat>): Result<string>
    decreases h.Keys - path, 0, 0
  {
    if id !in h then Err(NoSuchTable)
    else if id in path then Err(Circular)
    else
      var t := h[id];
      if Lookup(t.entries, NumKey(1)) != NilVal || t.entries == [] then
        if !AllNumeric(t.entries) then Err(InvalidKeys)
        else if |t.entries| != t.border then Err(SparseArray)
        else
          Bracketed("[", EncodeAll(h, Sequence(t.entries, 1), path + {id}), "]")
      else
        Bracketed("{", EncodeEntries(h, t.entries, path + {id}), "}")
  }

  function Bracketed(open: string, r: Result<seq<string>>, close: string): Result<string> {
    match r
    case Err(e) => Err(e)
    case Ok(ps) => Ok(open + Join(ps) + close)
  }

  function EncodeAll(h: Heap, vs: seq<Val>, path: set<nat>): Result<seq<string>>
    decreases h.Keys - path, 2, |vs|
  {
    if vs == [] then Ok([])
    else
      match EncodeVal(h, vs[0], path)
      case Err(e) => Err(e)
      case Ok(p) =>
        match EncodeAll(h, vs[1..], path)
        case Err(e) => Err(e)
        case Ok(ps) => Ok([p] + ps)
  }

  function EncodeEntries(h: Heap, es: seq<Entry>, path: set<nat>): Result<seq<string>>
    decreases h.Keys - path, 2, |es|
  {
    if es == [] then Ok([])
    else if !es[0].key.StrKey? then Err(InvalidKeys)
    else
      match EncodeVal(h, es[0].value, path)
      case Err(e) => Err(e)
      case Ok(p) =>
        match EncodeEntries(h, es[1..], path)
        case Err(e) => Err(e)
        case Ok(ps) => Ok([PrintString(es[0].key.s) + ":" + p] + ps)
  }

  /** Exactly the keys 1 .. n, in any order. */
  predicate IsArray(es: seq<Entry>) {
    && (forall i | 0 <= i < |es| :: es[i].key.NumKey? && 1 <= es[i].key.i <= |es|)
    && (forall k | 1 <= k <= |es| :: Lookup(es, NumKey(k)) != NilVal)
  }

  predicate IsObject(es: seq<Entry>) {
    es != [] && forall i | 0 <= i < |es| :: es[i].key.StrKey?
  }

  /** What Lua guarantees of a table: keys are distinct, nothing is nil, and
      the length is a border. */
  predicate LuaInvariant(t: LuaTable) {
    && (forall i, j | 0 <= i < j < |t.entries| :: t.entries[i].key != t.entries[j].key)
    && (forall i | 0 <= i < |t.entries| :: t.entries[i].value != NilVal)
    && (t.border == 0 || Lookup(t.entries, NumKey(t.border)) != NilVal)
    && Lookup(t.entries, NumKey(t.border + 1)) == NilVal
  }

  predicate Encodable(h: Heap, v: Val) {
    v != OtherVal && (v.Ref? ==> v.id in h)
  }

  /** No table is malformed: each is an array or an object of encodable values. */
  predicate Clean(h: Heap) {
    forall id | id in h ::
      && LuaInvariant(h[id])
      && (IsArray(h[id].entries) || IsObject(h[id].entries))
      && forall i | 0 <= i < |h[id].entries| :: Encodable(h, h[id].entries[i].value)
  }

  /** `t` is `v` with every table unfolded. */
  predicate Unfolds(h: Heap, v: Val, t: Tree)
    decreases t, 1
  {
    match t
    case NilTree => v == NilVal
    case BoolTree(b) => v == BoolVal(b)
    case NumTree(n) => v == NumVal(n)
    case StrTree(s) => v == StrVal(s)
    case ArrayTree(es) => v.Ref? && v.id in h && IsArray(h[v.id].entries)
        && UnfoldsAll(h, Sequence(h[v.id].entries, 1), es)
    case ObjectTree(ms) => v.Ref? && v.id in h && IsObject(h[v.id].entries) && UnfoldsEntries(h, h[v.id].entries, ms)
  }

  predicate UnfoldsAll(h: Heap, vs: seq<Val>, es: seq<Tree>)
    decreases es, 0
  {
    if es == [] then vs == [] else vs != [] && Unfolds(h, vs[0], es[0]) && UnfoldsAll(h, vs[1..], es[1..])
  }

  predicate UnfoldsEntries(h: Heap, es: seq<Entry>, ms: seq<Member>)
    decreases ms, 0
  {
    if ms == [] then es == []
    else
      && es != [] && es[0].key == StrKey(ms[0].key) && Unfolds(h, es[0].value, ms[0].value)
      && UnfoldsEntries(h, es[1..], ms[1..])
  }

  /** A value unfolds to one tree at most. */
  lemma {:induction false} UnfoldsOnce(h: Heap, v: Val, t: Tree, u: Tree)
    requires Unfolds(h, v, t) && Unfolds(h, v, u)
    ensures t == u
    decreases t, 1
  {
    match t
    case ArrayTree(es) =>
      NotBoth(h[v.id].entries);
      UnfoldsAllOnce(h, Sequence(h[v.id].entries, 1), es, u.es);
    case ObjectTree(ms) =>
      NotBoth(h[v.id].entries);
      UnfoldsEntriesOnce(h, h[v.id].entries, ms, u.ms);
    case _ =>
  }

  lemma NotBoth(es: seq<Entry>)
    ensures !(IsArray(es) && IsObject(es))
  {
    assert es != [] ==> !(es[0].key.NumKey? && es[0].key.StrKey?);
  }

  lemma {:induction false} UnfoldsAllOnce(h: Heap, vs: seq<Val>, es: seq<Tree>, us: seq<Tree>)
    requires UnfoldsAll(h, vs, es) && UnfoldsAll(h, vs, us)
    ensures es == us
    decreases es, 0
  {
    if es != [] {
      UnfoldsOnce(h, vs[0], es[0], us[0]);
      UnfoldsAllOnce(h, vs[1..], es[1..], us[1..]);
      assert es == [es[0]] + es[1..] && us == [us[0]] + us[1..];
    }
  }

  lemma {:induction false} UnfoldsEntriesOnce(h: Heap, es: seq<Entry>, ms: seq<Member>, us: seq<Member>)
    requires UnfoldsEntries(h, es, ms) && UnfoldsEntries(h, es, us)
    ensures ms == us
    decreases ms, 0
  {
    if ms != [] {
      UnfoldsOnce(h, es[0].value, ms[0].value, us[0].value);
      UnfoldsEntriesOnce(h, es[1..], ms[1..], us[1..]);
      assert ms == [ms[0]] + ms[1..] && us == [us[0]] + us[1..];
    }
  }

  /** On an array the border is its number of entries, and the array check of
      the encoder lets it through. */
  lemma ArrayBorder(t: LuaTable)
    requires LuaInvariant(t) && IsArray(t.entries)
    ensures t.border == |t.entries| && AllNumeric(t.entries)
    ensures Lookup(t.entries, NumKey(1)) != NilVal || t.entries == []
  {
    if t.border > 0 {
      LookupHits(t.entries, NumKey(t.border));
    }
  }

  /** An object is never taken for an array. */
  lemma ObjectNotArray(es: seq<Entry>)
    requires IsObject(es)
    ensures Lookup(es, NumKey(1)) == NilVal && es != []
  {
    LookupHits(es, NumKey(1));
  }

  /** What the checks of the encoder come down to on a well-formed table that is
      not on the path. */
  lemma CleanTable(h: Heap, id: nat, path: set<nat>)
    requires Clean(h) && id in h && id !in path
    ensures var es := h[id].entries;
            EncodeTable(h, id, path) ==
            if IsArray(es) then Bracketed("[", EncodeAll(h, Sequence(es, 1), path + {id}), "]")
            else Bracketed("{", EncodeEntries(h, es, path + {id}), "}")
    ensures !IsArray(h[id].entries) ==> IsObject(h[id].entries)
  {
    hide Bracketed;
    if IsArray(h[id].entries) {
      ArrayBorder(h[id]);
    } else {
      ObjectNotArray(h[id].entries);
    }
  }

  /** Everything `ipairs` visits is the value of some entry, and not nil. */
  lemma {:induction false} SequenceValues(es: seq<Entry>, i: int, k: nat)
    requires k < |Sequence(es, i)|
    ensures Sequence(es, i)[k] != NilVal && exists j :: 0 <= j < |es| && es[j].value == Sequence(es, i)[k]
    decreases k
  {
    LookupHits(es, NumKey(i));
    if k > 0 {
      SequenceValues(es, i + 1, k - 1);
    }
  }

  function KeysOf(es: seq<Entry>): set<TableKey> {
    set i | 0 <= i < |es| :: es[i].key
  }

  function Range(n: nat): set<TableKey> {
    set i | 1 <= i <= n :: NumKey(i)
  }

  predicate KeysIn(es: seq<Entry>, n: nat) {
    forall i | 0 <= i < |es| :: es[i].key.NumKey? && 1 <= es[i].key.i <= n
  }

  lemma {:induction false} RangeSize(n: nat)
    ensures |Range(n)| == n
  {
    if n > 0 {
      RangeSize(n - 1);
      assert Range(n) == Range(n - 1) + {NumKey(n)};
    }
  }

  lemma {:induction false} KeysSize(es: seq<Entry>)
    requires forall i, j | 0 <= i < j < |es| :: es[i].key != es[j].key
    ensures |KeysOf(es)| == |es|
  {
    if es != [] {
      var front, last := es[..|es| - 1], es[|es| - 1];
      KeysSize(front);
      assert KeysOf(es) == KeysOf(front) + {last.key} by {
        assert forall i | 0 <= i < |es| :: es[i] == if i < |front| then front[i] else last;
      }
    }
  }

  lemma {:induction false} SameSize(a: set<TableKey>, b: set<TableKey>)
    requires a <= b && |a| == |b|
    ensures a == b
  {
    if a != {} {
      var x :| x in a;
      SameSize(a - {x}, b - {x});
    } else {
      assert |b| == 0;
    }
  }

  lemma {:induction false} LookupFinds(es: seq<Entry>, k: TableKey)
    requires forall i | 0 <= i < |es| :: es[i].value != NilVal
    ensures Lookup(es, k) != NilVal <==> k in KeysOf(es)
  {
    if es == [] {
    } else if es[0].key != k {
      LookupFinds(es[1..], k);
      if k in KeysOf(es) {
        var i :| 0 <= i < |es| && es[i].key == k;
        assert es[1..][i - 1].key == k;
      } else {
        assert forall i | 0 <= i < |es[1..]| :: es[1..][i] == es[i + 1];
      }
    } else {
      assert es[0].key in KeysOf(es);
    }
  }

  /** `ipairs` stops in front of the first missing key. */
  lemma {:induction false} SequenceStops(es: seq<Entry>, i: int)
    ensures forall k | i <= k < i + |Sequence(es, i)| :: Lookup(es, NumKey(k)) != NilVal
    ensures Lookup(es, NumKey(i + |Sequence(es, i)|)) == NilVal
    decreases KeysFrom(es, i)
  {
    if Lookup(es, NumKey(i)) != NilVal {
      LookupHits(es, NumKey(i));
      assert NumKey(i) in KeysFrom(es, i) && NumKey(i) !in KeysFrom(es, i + 1);
      SequenceStops(es, i + 1);
    }
  }

  lemma ArrayByKeys(t: LuaTable)
    requires LuaInvariant(t)
    ensures IsArray(t.entries) <==> KeysIn(t.entries, |t.entries|)
  {
    var es := t.entries;
    if KeysIn(es, |es|) {
      KeysSize(es);
      RangeSize(|es|);
      assert KeysOf(es) <= Range(|es|);
      SameSize(KeysOf(es), Range(|es|));
      forall k | 1 <= k <= |es| ensures Lookup(es, NumKey(k)) != NilVal {
        LookupFinds(es, NumKey(k));
      }
    }
  }

  lemma ArrayByLength(t: LuaTable)
    requires LuaInvariant(t)
    ensures |Sequence(t.entries, 1)| <= |t.entries|
    ensures IsArray(t.entries) <==> |Sequence(t.entries, 1)| == |t.entries|
  {
    var es, n := t.entries, |Sequence(t.entries, 1)|;
    SequenceStops(es, 1);
    KeysSize(es);
    RangeSize(n);
    forall k | 1 <= k <= n ensures NumKey(k) in KeysOf(es) {
      LookupFinds(es, NumKey(k));
    }
    assert Range(n) <= KeysOf(es);
    SubsetSize(Range(n), KeysOf(es));
    if n == |es| {
      SameSize(Range(n), KeysOf(es));
      forall i | 0 <= i < |es| ensures es[i].key.NumKey? && 1 <= es[i].key.i <= n {
        assert es[i].key in KeysOf(es);
      }
    }
  }

  lemma {:induction false} SubsetSize(a: set<TableKey>, b: set<TableKey>)
    requires a <= b
    ensures |a| <= |b|
  {
    if a != {} {
      var x :| x in a;
      SubsetSize(a - {x}, b - {x});
    }
  }

  /** What the check for sparse arrays is worth: a table that passes it is an
      array if and only if its keys are integers from 1 to its length, and if
      and only if every one of its values is encoded. */
  lemma SparseCheck(t: LuaTable)
    requires LuaInvariant(t) && AllNumeric(t.entries) && |t.entries| == t.border
    ensures IsArray(t.entries) <==> KeysIn(t.entries, t.border)
    ensures IsArray(t.entries) <==> |Sequence(t.entries, 1)| == |t.entries|
    ensures !IsArray(t.entries) ==> |Sequence(t.entries, 1)| < |t.entries|
  {
    ArrayByKeys(t);
    ArrayByLength(t);
  }
}
