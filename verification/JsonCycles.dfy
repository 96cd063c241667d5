/** When the encoder of lib/json.lua succeeds: on well-formed tables, exactly
    when no table is reachable from itself; and then its text is the printing
    of the unfolded value, which decodes to it. */
module JsonCycles {
  import opened JsonGraph
  import opened JsonParser
  import opened JsonRoundTrip
  import opened JsonText
  import opened JsonValues

  function Depth(t: Tree): nat
    decreases t, 1
  {
    match t
    case ArrayTree(es) => 1 + ElementsDepth(es)
    case ObjectTree(ms) => 1 + MembersDepth(ms)
    case _ => 0
  }

  function ElementsDepth(es: seq<Tree>): nat
    decreases es, 0
  {
    if es == [] then 0 else Max(Depth(es[0]), ElementsDepth(es[1..]))
  }

  function MembersDepth(ms: seq<Member>): nat
    decreases ms, 0
  {
    if ms == [] then 0 else Max(Depth(ms[0].value), MembersDepth(ms[1..]))
  }

  function Max(a: nat, b: nat): nat {
    if a < b then b else a
  }

  predicate AllEncodable(h: Heap, vs: seq<Val>) {
    forall i | 0 <= i < |vs| :: vs[i] != NilVal && Encodable(h, vs[i])
  }

  predicate EntriesEncodable(h: Heap, es: seq<Entry>) {
    && (forall i | 0 <= i < |es| :: es[i].key.StrKey? && es[i].value != NilVal && Encodable(h, es[i].value))
    && (forall i, j | 0 <= i < j < |es| :: es[i].key != es[j].key)
  }

  lemma SequenceEncodable(h: Heap, id: nat)
    requires Clean(h) && id in h
    ensures AllEncodable(h, Sequence(h[id].entries, 1))
  {
    forall k | 0 <= k < |Sequence(h[id].entries, 1)|
      ensures Sequence(h[id].entries, 1)[k] != NilVal && Encodable(h, Sequence(h[id].entries, 1)[k])
    {
      SequenceValues(h[id].entries, 1, k);
    }
  }

  /** Conversely, what is encoded without an error has an unfolding. */
  lemma {:induction false} EncodedUnfolds(h: Heap, v: Val, path: set<nat>) returns (t: Tree)
    requires Clean(h) && Encodable(h, v) && EncodeVal(h, v, path).Ok?
    ensures Unfolds(h, v, t) && Proper(t) && (v != NilVal ==> t != NilTree)
    decreases h.Keys - path, 1, 0
  {
    match v
    case NilVal => t := NilTree;
    case BoolVal(b) => t := BoolTree(b);
    case NumVal(n) => t := NumTree(n);
    case StrVal(s) => t := StrTree(s);
    case Ref(id) =>
      if id in path {
        assert false;
      }
      CleanTable(h, id, path);
      if IsArray(h[id].entries) {
        SequenceEncodable(h, id);
        var es := EncodedUnfoldsAll(h, Sequence(h[id].entries, 1), path + {id});
        t := ArrayTree(es);
      } else {
        var ms := EncodedUnfoldsEntries(h, h[id].entries, path + {id});
        t := ObjectTree(ms);
      }
  }

  lemma {:induction false} EncodedUnfoldsAll(h: Heap, vs: seq<Val>, path: set<nat>) returns (es: seq<Tree>)
    requires Clean(h) && AllEncodable(h, vs) && EncodeAll(h, vs, path).Ok?
    ensures UnfoldsAll(h, vs, es) && ProperElements(es)
    decreases h.Keys - path, 2, |vs|
  {
    if vs == [] {
      es := [];
    } else {
      var t := EncodedUnfolds(h, vs[0], path);
      var rest := EncodedUnfoldsAll(h, vs[1..], path);
      es := [t] + rest;
    }
  }

  lemma {:induction false} EncodedUnfoldsEntries(h: Heap, es: seq<Entry>, path: set<nat>) returns (ms: seq<Member>)
    requires Clean(h) && EntriesEncodable(h, es) && EncodeEntries(h, es, path).Ok?
    ensures UnfoldsEntries(h, es, ms) && ProperMembers(ms) && DistinctKeys(ms)
    ensures |ms| == |es| && forall i | 0 <= i < |ms| :: es[i].key == StrKey(ms[i].key)
    decreases h.Keys - path, 2, |es|
  {
    if es == [] {
      ms := [];
    } else {
      var t := EncodedUnfolds(h, es[0].value, path);
      var rest := EncodedUnfoldsEntries(h, es[1..], path);
      ms := [Member(es[0].key.s, t)] + rest;
      assert ms[1..] == rest;
      assert forall i | 0 < i < |ms| :: es[i] == es[1..][i - 1] && ms[i] == rest[i - 1];
    }
  }

  predicate Holds(h: Heap, a: nat, b: nat) {
    a in h && exists i :: 0 <= i < |h[a].entries| && h[a].entries[i].value == Ref(b)
  }

  /** Each table holds the next. */
  predicate IsWalk(h: Heap, w: seq<nat>) {
    forall i | 0 <= i < |w| - 1 :: Holds(h, w[i], w[i + 1])
  }

  /** From `v` some table is reached that is reached again from itself. */
  predicate LoopsFrom(h: Heap, v: Val, w: seq<nat>) {
    |w| > 0 && v == Ref(w[0]) && IsWalk(h, w) && Meets(w)
  }

  ghost predicate Cyclic(h: Heap, v: Val) {
    exists w :: LoopsFrom(h, v, w)
  }

  ghost function Elements(w: seq<nat>): set<nat> {
    set x | x in w
  }

  lemma WalkOn(h: Heap, w: seq<nat>, id: nat)
    requires IsWalk(h, w) && (w != [] ==> Holds(h, w[|w| - 1], id))
    ensures IsWalk(h, w + [id]) && Elements(w + [id]) == Elements(w) + {id}
    ensures id in Elements(w) ==> Meets(w + [id])
  {
    hide Holds;
    assert (w + [id])[..|w|] == w;
  }

  /** The walk ends at a table it has passed. */
  predicate Meets(w: seq<nat>) {
    |w| > 0 && w[|w| - 1] in w[..|w| - 1]
  }

  lemma EntriesHeld(h: Heap, id: nat)
    requires id in h
    ensures forall k | 0 <= k < |h[id].entries| && h[id].entries[k].value.Ref? ::
              Holds(h, id, h[id].entries[k].value.id)
    ensures forall k | 0 <= k < |Sequence(h[id].entries, 1)| && Sequence(h[id].entries, 1)[k].Ref? ::
              Holds(h, id, Sequence(h[id].entries, 1)[k].id)
  {
    forall k | 0 <= k < |Sequence(h[id].entries, 1)| && Sequence(h[id].entries, 1)[k].Ref?
      ensures Holds(h, id, Sequence(h[id].entries, 1)[k].id)
    {
      SequenceValues(h[id].entries, 1, k);
    }
  }

  lemma ObjectEncodable(h: Heap, id: nat)
    requires Clean(h) && id in h && IsObject(h[id].entries)
    ensures EntriesEncodable(h, h[id].entries)
  {
  }

  /** The error can only be the circular reference, and it comes with a walk
      from the path on that meets itself. */
  lemma {:induction false} ErrorLoops(h: Heap, v: Val, w: seq<nat>) returns (loop: seq<nat>)
    requires Clean(h) && Encodable(h, v) && IsWalk(h, w)
    requires w != [] && v.Ref? ==> Holds(h, w[|w| - 1], v.id)
    requires EncodeVal(h, v, Elements(w)).Err?
    ensures EncodeVal(h, v, Elements(w)) == Err(Circular) && v.Ref?
    ensures w + [v.id] <= loop && IsWalk(h, loop) && Meets(loop)
    decreases h.Keys - Elements(w), 1, 0
  {
    hide Clean, IsArray, IsObject, IsWalk, Meets, Holds, Sequence, Elements, AllEncodable, EntriesEncodable;
    var w' := w + [v.id];
    WalkOn(h, w, v.id);
    if v.id in Elements(w) {
      loop := w';
      assert EncodeTable(h, v.id, Elements(w)) == Err(Circular);
    } else {
      hide EncodeTable;
      CleanTable(h, v.id, Elements(w));
      EntriesHeld(h, v.id);
      assert h.Keys - Elements(w') < h.Keys - Elements(w);
      if IsArray(h[v.id].entries) {
        SequenceEncodable(h, v.id);
        loop := ErrorLoopsAll(h, Sequence(h[v.id].entries, 1), w');
      } else {
        ObjectEncodable(h, v.id);
        loop := ErrorLoopsEntries(h, h[v.id].entries, w');
      }
    }
  }

  lemma {:induction false} ErrorLoopsAll(h: Heap, vs: seq<Val>, w: seq<nat>) returns (loop: seq<nat>)
    requires Clean(h) && AllEncodable(h, vs) && IsWalk(h, w) && w != []
    requires forall k | 0 <= k < |vs| && vs[k].Ref? :: Holds(h, w[|w| - 1], vs[k].id)
    requires EncodeAll(h, vs, Elements(w)).Err?
    ensures EncodeAll(h, vs, Elements(w)).error == Circular
    ensures w <= loop && IsWalk(h, loop) && Meets(loop)
    decreases h.Keys - Elements(w), 2, |vs|
  {
    hide Clean, IsWalk, Meets, Holds, Elements, EncodeVal;
    if EncodeVal(h, vs[0], Elements(w)).Err? {
      loop := ErrorLoops(h, vs[0], w);
    } else {
      loop := ErrorLoopsAll(h, vs[1..], w);
    }
  }

  lemma {:induction false} ErrorLoopsEntries(h: Heap, es: seq<Entry>, w: seq<nat>) returns (loop: seq<nat>)
    requires Clean(h) && EntriesEncodable(h, es) && IsWalk(h, w) && w != []
    requires forall k | 0 <= k < |es| && es[k].value.Ref? :: Holds(h, w[|w| - 1], es[k].value.id)
    requires EncodeEntries(h, es, Elements(w)).Err?
    ensures EncodeEntries(h, es, Elements(w)).error == Circular
    ensures w <= loop && IsWalk(h, loop) && Meets(loop)
    decreases h.Keys - Elements(w), 2, |es|
  {
    hide Clean, IsWalk, Meets, Holds, Elements, EncodeVal;
    if EncodeVal(h, es[0].value, Elements(w)).Err? {
      loop := ErrorLoops(h, es[0].value, w);
    } else {
      loop := ErrorLoopsEntries(h, es[1..], w);
    }
  }

  /** The tree of a table held in another is a part of the other's tree. */
  lemma HeldTree(h: Heap, a: nat, b: nat, t: Tree) returns (u: Tree)
    requires Clean(h) && Unfolds(h, Ref(a), t) && Holds(h, a, b)
    ensures Unfolds(h, Ref(b), u) && Depth(u) < Depth(t)
  {
    var i :| 0 <= i < |h[a].entries| && h[a].entries[i].value == Ref(b);
    match t
    case ArrayTree(es) =>
      var k := h[a].entries[i].key.i;
      LookupDistinct(h[a].entries, i);
      SequenceAt(h[a].entries, 1, k);
      u := ElementTree(h, Sequence(h[a].entries, 1), es, k - 1);
    case ObjectTree(ms) =>
      u := MemberTree(h, h[a].entries, ms, i);
  }

  lemma {:induction false} LookupDistinct(es: seq<Entry>, i: nat)
    requires i < |es| && forall x, y | 0 <= x < y < |es| :: es[x].key != es[y].key
    ensures Lookup(es, es[i].key) == es[i].value
  {
    if i > 0 {
      assert es[1..][i - 1] == es[i];
      LookupDistinct(es[1..], i - 1);
    }
  }

  /** `ipairs` reaches index `k` when nothing before it is missing. */
  lemma {:induction false} SequenceAt(es: seq<Entry>, i: int, k: int)
    requires i <= k && forall x | i <= x <= k :: Lookup(es, NumKey(x)) != NilVal
    ensures k - i < |Sequence(es, i)| && Sequence(es, i)[k - i] == Lookup(es, NumKey(k))
    decreases k - i
  {
    if i < k {
      SequenceAt(es, i + 1, k);
    }
  }

  lemma {:induction false} ElementTree(h: Heap, vs: seq<Val>, es: seq<Tree>, k: nat) returns (u: Tree)
    requires UnfoldsAll(h, vs, es) && k < |vs|
    ensures Unfolds(h, vs[k], u) && Depth(u) <= ElementsDepth(es)
    decreases es
  {
    if k == 0 {
      u := es[0];
    } else {
      u := ElementTree(h, vs[1..], es[1..], k - 1);
    }
  }

  lemma {:induction false} MemberTree(h: Heap, es: seq<Entry>, ms: seq<Member>, k: nat) returns (u: Tree)
    requires UnfoldsEntries(h, es, ms) && k < |es|
    ensures Unfolds(h, es[k].value, u) && Depth(u) <= MembersDepth(ms)
    decreases ms
  {
    if k == 0 {
      u := ms[0].value;
    } else {
      u := MemberTree(h, es[1..], ms[1..], k - 1);
    }
  }

  /** Along a walk the trees get shallower. */
  lemma {:induction false} WalkTree(h: Heap, w: seq<nat>, t: Tree, i: nat, j: nat) returns (u: Tree)
    requires Clean(h) && IsWalk(h, w) && i <= j < |w| && Unfolds(h, Ref(w[i]), t)
    ensures Unfolds(h, Ref(w[j]), u) && Depth(u) + (j - i) <= Depth(t)
    decreases j - i
  {
    hide Clean, Unfolds, Holds;
    if i == j {
      u := t;
    } else {
      assert Holds(h, w[i], w[i + 1]);
      var next := HeldTree(h, w[i], w[i + 1], t);
      u := WalkTree(h, w, next, i + 1, j);
    }
  }

  /** Nothing on a cycle has an unfolding. */
  lemma CyclicHasNoTree(h: Heap, v: Val, t: Tree)
    requires Clean(h) && Cyclic(h, v)
    ensures !Unfolds(h, v, t)
  {
    if Unfolds(h, v, t) {
      var w :| LoopsFrom(h, v, w);
      var j := |w| - 1;
      var i :| 0 <= i < j && w[i] == w[j];
      var first := WalkTree(h, w, t, 0, i);
      var last := WalkTree(h, w, first, i, j);
      UnfoldsOnce(h, Ref(w[i]), first, last);
      assert false;
    }
  }

  /** On a memory of well-formed tables only. */
  lemma CleanEncodes(h: Heap, v: Val)
    requires Clean(h) && Encodable(h, v)
    ensures EncodeVal(h, v, {}) == Err(Circular) <==> Cyclic(h, v)
    ensures !Cyclic(h, v) ==> exists t :: Proper(t) && Unfolds(h, v, t) && EncodeVal(h, v, {}) == Ok(Print(t))
  {
    assert Elements([]) == {};
    if EncodeVal(h, v, {}).Err? {
      var loop := ErrorLoops(h, v, []);
      assert [] + [v.id] <= loop;
      assert LoopsFrom(h, v, loop);
    } else {
      var t := EncodedUnfolds(h, v, {});
      EncodesAvoiding(h, v, t, {});
      if Cyclic(h, v) {
        CyclicHasNoTree(h, v, t);
        assert false;
      }
    }
  }

  /** A walk from `v`; its last table is reached. */
  predicate Reaches(h: Heap, v: Val, w: seq<nat>) {
    |w| > 0 && v == Ref(w[0]) && IsWalk(h, w)
  }

  /** Every table that `v` reaches is well-formed. Nothing is asked of others. */
  ghost predicate CleanFrom(h: Heap, v: Val) {
    v != OtherVal && forall w | Reaches(h, v, w) :: w[|w| - 1] in h && WellFormed(h[w[|w| - 1]])
  }

  predicate WellFormed(t: LuaTable) {
    && LuaInvariant(t) && (IsArray(t.entries) || IsObject(t.entries))
    && forall i | 0 <= i < |t.entries| :: t.entries[i].value != OtherVal
  }

  ghost predicate Reached(h: Heap, v: Val, id: nat) {
    exists w :: Reaches(h, v, w) && w[|w| - 1] == id
  }

  /** The tables that `v` reaches. */
  ghost function From(h: Heap, v: Val): Heap {
    map id | id in h && Reached(h, v, id) :: h[id]
  }

  lemma ReachedOn(h: Heap, v: Val, a: nat, b: nat)
    requires Reached(h, v, a) && Holds(h, a, b)
    ensures Reached(h, v, b)
  {
    hide Holds;
    var w :| Reaches(h, v, w) && w[|w| - 1] == a;
    WalkOn(h, w, b);
    assert Reaches(h, v, w + [b]);
  }

  lemma FromClean(h: Heap, v: Val)
    requires CleanFrom(h, v)
    ensures Clean(From(h, v)) && Encodable(From(h, v), v)
  {
    hide IsArray, IsObject, LuaInvariant;
    var f := From(h, v);
    forall id | id in f
      ensures WellFormed(f[id]) && forall i | 0 <= i < |f[id].entries| :: Encodable(f, f[id].entries[i].value)
    {
      var w :| Reaches(h, v, w) && w[|w| - 1] == id;
      forall i | 0 <= i < |f[id].entries| ensures Encodable(f, f[id].entries[i].value) {
        if f[id].entries[i].value.Ref? {
          var b := f[id].entries[i].value.id;
          assert Holds(h, id, b);
          ReachedOn(h, v, id, b);
          var u :| Reaches(h, v, u) && u[|u| - 1] == b;
        }
      }
    }
    if v.Ref? {
      assert Reaches(h, v, [v.id]);
    }
  }

  /** `f` is a part of `h` that no table of it leads out of. */
  ghost predicate Part(f: Heap, h: Heap) {
    && (forall id | id in f :: id in h && f[id] == h[id])
    && forall id | id in f :: forall i | 0 <= i < |f[id].entries| :: Encodable(f, f[id].entries[i].value)
  }

  lemma {:induction false} PartEncodes(f: Heap, h: Heap, v: Val, path: set<nat>)
    requires Part(f, h) && Encodable(f, v)
    ensures EncodeVal(f, v, path) == EncodeVal(h, v, path)
    decreases f.Keys - path, 1, 0
  {
    hide Bracketed, Sequence;
    if v.Ref? && v.id !in path {
      var es := f[v.id].entries;
      forall k | 0 <= k < |Sequence(es, 1)| ensures Encodable(f, Sequence(es, 1)[k]) {
        SequenceValues(es, 1, k);
      }
      PartEncodesAll(f, h, Sequence(es, 1), path + {v.id});
      PartEncodesEntries(f, h, es, path + {v.id});
    }
  }

  lemma {:induction false} PartEncodesAll(f: Heap, h: Heap, vs: seq<Val>, path: set<nat>)
    requires Part(f, h) && forall k | 0 <= k < |vs| :: Encodable(f, vs[k])
    ensures EncodeAll(f, vs, path) == EncodeAll(h, vs, path)
    decreases f.Keys - path, 2, |vs|
  {
    hide Part, EncodeVal;
    if vs != [] {
      PartEncodes(f, h, vs[0], path);
      PartEncodesAll(f, h, vs[1..], path);
    }
  }

  lemma {:induction false} PartEncodesEntries(f: Heap, h: Heap, es: seq<Entry>, path: set<nat>)
    requires Part(f, h) && forall k | 0 <= k < |es| :: Encodable(f, es[k].value)
    ensures EncodeEntries(f, es, path) == EncodeEntries(h, es, path)
    decreases f.Keys - path, 2, |es|
  {
    hide Part, EncodeVal;
    if es != [] {
      PartEncodes(f, h, es[0].value, path);
      PartEncodesEntries(f, h, es[1..], path);
    }
  }

  lemma {:induction false} PartUnfolds(f: Heap, h: Heap, v: Val, t: Tree)
    requires Part(f, h) && Unfolds(f, v, t)
    ensures Unfolds(h, v, t)
    decreases t, 1
  {
    hide IsArray, IsObject, Sequence;
    match t
    case ArrayTree(es) => PartUnfoldsAll(f, h, Sequence(f[v.id].entries, 1), es);
    case ObjectTree(ms) => PartUnfoldsEntries(f, h, f[v.id].entries, ms);
    case _ =>
  }

  lemma {:induction false} PartUnfoldsAll(f: Heap, h: Heap, vs: seq<Val>, es: seq<Tree>)
    requires Part(f, h) && UnfoldsAll(f, vs, es)
    ensures UnfoldsAll(h, vs, es)
    decreases es, 0
  {
    hide Part;
    if es != [] {
      PartUnfolds(f, h, vs[0], es[0]);
      PartUnfoldsAll(f, h, vs[1..], es[1..]);
    }
  }

  lemma {:induction false} PartUnfoldsEntries(f: Heap, h: Heap, es: seq<Entry>, ms: seq<Member>)
    requires Part(f, h) && UnfoldsEntries(f, es, ms)
    ensures UnfoldsEntries(h, es, ms)
    decreases ms, 0
  {
    hide Part;
    if ms != [] {
      PartUnfolds(f, h, es[0].value, ms[0].value);
      PartUnfoldsEntries(f, h, es[1..], ms[1..]);
    }
  }

  /** A walk that starts in the part stays in it. */
  lemma {:induction false} PartWalk(f: Heap, h: Heap, w: seq<nat>)
    requires Part(f, h) && IsWalk(h, w) && |w| > 0 && w[0] in f
    ensures IsWalk(f, w) && w[|w| - 1] in f
  {
    if |w| > 1 {
      var front := w[..|w| - 1];
      PartWalk(f, h, front);
      var a, b := front[|front| - 1], w[|w| - 1];
      assert Holds(h, a, b);
      assert Holds(f, a, b);
      forall i | 0 <= i < |w| - 1 ensures Holds(f, w[i], w[i + 1]) {
        if i < |front| - 1 {
          assert Holds(f, front[i], front[i + 1]);
        }
      }
    }
  }

  lemma PartCycles(f: Heap, h: Heap, v: Val)
    requires Part(f, h) && Encodable(f, v)
    ensures Cyclic(f, v) <==> Cyclic(h, v)
  {
    hide Part, Meets;
    if Cyclic(h, v) {
      var w :| LoopsFrom(h, v, w);
      PartWalk(f, h, w);
      assert LoopsFrom(f, v, w);
    }
    if Cyclic(f, v) {
      var w :| LoopsFrom(f, v, w);
      WholeWalk(f, h, w);
      assert LoopsFrom(h, v, w);
    }
  }

  lemma WholeWalk(f: Heap, h: Heap, w: seq<nat>)
    requires Part(f, h) && IsWalk(f, w)
    ensures IsWalk(h, w)
  {
  }

  /** When every table that a value reaches is well-formed, the encoder raises
      the circular-reference error exactly when a cycle is among them; otherwise,
      shared tables included, it prints the unfolded value. */
  lemma EncodesUnlessCyclic(h: Heap, v: Val)
    requires CleanFrom(h, v)
    ensures EncodeVal(h, v, {}) == Err(Circular) <==> Cyclic(h, v)
    ensures !Cyclic(h, v) ==> exists t :: Proper(t) && Unfolds(h, v, t) && EncodeVal(h, v, {}) == Ok(Print(t))
  {
    hide Clean, Encodable, CleanFrom, Cyclic;
    var f := From(h, v);
    FromClean(h, v);
    FromPart(h, v);
    CleanEncodes(f, v);
    PartEncodes(f, h, v, {});
    PartCycles(f, h, v);
    if !Cyclic(h, v) {
      var t :| Proper(t) && Unfolds(f, v, t) && EncodeVal(f, v, {}) == Ok(Print(t));
      PartUnfolds(f, h, v, t);
    }
  }

  lemma FromPart(h: Heap, v: Val)
    requires Clean(From(h, v))
    ensures Part(From(h, v), h)
  {
    hide Reached;
  }

  /** The round trip from memory to memory: what is encoded decodes to the
      value, for every order in which `pairs` visits the tables. */
  lemma EncodeDecode(h: Heap, v: Val, other: string -> bool)
    requires CleanFrom(h, v) && !Cyclic(h, v)
    ensures EncodeVal(h, v, {}).Ok?
    ensures exists t ::
              && Unfolds(h, v, t)
              && Decode(EncodeVal(h, v, {}).value, other) == Good(Denote(t), |EncodeVal(h, v, {}).value|)
  {
    EncodesUnlessCyclic(h, v);
    var t :| Proper(t) && Unfolds(h, v, t) && EncodeVal(h, v, {}) == Ok(Print(t));
    JsonRoundTrips(t, other);
  }

  lemma {:induction false} WholeUnfolds(f: Heap, h: Heap, v: Val, t: Tree)
    requires Part(f, h) && Encodable(f, v) && Unfolds(h, v, t)
    ensures Unfolds(f, v, t)
    decreases t, 1
  {
    hide IsArray, IsObject, Sequence;
    match t
    case ArrayTree(es) =>
      var vs := Sequence(h[v.id].entries, 1);
      forall k | 0 <= k < |vs| ensures Encodable(f, vs[k]) {
        SequenceValues(h[v.id].entries, 1, k);
      }
      WholeUnfoldsAll(f, h, vs, es);
    case ObjectTree(ms) => WholeUnfoldsEntries(f, h, h[v.id].entries, ms);
    case _ =>
  }

  lemma {:induction false} WholeUnfoldsAll(f: Heap, h: Heap, vs: seq<Val>, es: seq<Tree>)
    requires Part(f, h) && UnfoldsAll(h, vs, es) && forall k | 0 <= k < |vs| :: Encodable(f, vs[k])
    ensures UnfoldsAll(f, vs, es)
    decreases es, 0
  {
    hide Part;
    if es != [] {
      WholeUnfolds(f, h, vs[0], es[0]);
      WholeUnfoldsAll(f, h, vs[1..], es[1..]);
    }
  }

  lemma {:induction false} WholeUnfoldsEntries(f: Heap, h: Heap, es: seq<Entry>, ms: seq<Member>)
    requires Part(f, h) && UnfoldsEntries(h, es, ms) && forall k | 0 <= k < |es| :: Encodable(f, es[k].value)
    ensures UnfoldsEntries(f, es, ms)
    decreases ms, 0
  {
    hide Part;
    if ms != [] {
      WholeUnfolds(f, h, es[0].value, ms[0].value);
      WholeUnfoldsEntries(f, h, es[1..], ms[1..]);
    }
  }

  ghost predicate Avoids(h: Heap, v: Val, path: set<nat>) {
    forall id | Reached(h, v, id) :: id !in path
  }

  predicate HeldBy(h: Heap, id: nat, c: Val) {
    c.Ref? ==> Holds(h, id, c.id)
  }

  lemma RootReached(h: Heap, id: nat)
    ensures Reached(h, Ref(id), id)
  {
    assert Reaches(h, Ref(id), [id]);
  }

  /** What a table holds reaches no more than the table does, and on a table
      with an unfolding, not the table itself. */
  lemma HeldReaches(h: Heap, id: nat, c: Val, x: nat)
    requires HeldBy(h, id, c) && Reached(h, c, x)
    ensures Reached(h, Ref(id), x) && (x == id ==> Cyclic(h, Ref(id)))
  {
    hide Holds;
    var w :| Reaches(h, c, w) && w[|w| - 1] == x;
    var longer := [id] + w;
    assert forall i | 0 <= i < |longer| - 1 :: longer[i] == (if i == 0 then id else w[i - 1]) && longer[i + 1] == w[i];
    assert Reaches(h, Ref(id), longer) && longer[|longer| - 1] == x;
    if x == id {
      assert longer[..|longer| - 1][0] == id;
      assert LoopsFrom(h, Ref(id), longer);
    }
  }

  lemma HeldAvoids(h: Heap, id: nat, c: Val, t: Tree, path: set<nat>)
    requires Clean(h) && Unfolds(h, Ref(id), t) && Avoids(h, Ref(id), path) && HeldBy(h, id, c)
    ensures Avoids(h, c, path + {id})
  {
    hide Clean, Unfolds, Reached, Cyclic, HeldBy;
    forall x | Reached(h, c, x) ensures x !in path + {id} {
      HeldReaches(h, id, c, x);
      if x == id {
        CyclicHasNoTree(h, Ref(id), t);
        assert false;
      }
    }
  }

  lemma {:induction false} EncodesAvoiding(h: Heap, v: Val, t: Tree, path: set<nat>)
    requires Clean(h) && Unfolds(h, v, t) && Avoids(h, v, path)
    ensures EncodeVal(h, v, path) == Ok(Print(t))
    decreases t, 1
  {
    hide Clean, Avoids, Reached, IsArray, IsObject, Sequence, Join, EncodeTable, Holds, PrintString, Decimal;
    if v.Ref? {
      AvoidsRoot(h, v.id, path);
      CleanTable(h, v.id, path);
      EntriesHeld(h, v.id);
      forall c | HeldBy(h, v.id, c) ensures Avoids(h, c, path + {v.id}) {
        HeldAvoids(h, v.id, c, t, path);
      }
      var es := h[v.id].entries;
      match t
      case ArrayTree(ts) =>
        assert forall k | 0 <= k < |Sequence(es, 1)| :: HeldBy(h, v.id, Sequence(es, 1)[k]);
        EncodesAvoidingAll(h, Sequence(es, 1), ts, path + {v.id});
      case ObjectTree(ms) =>
        NotBoth(es);
        assert forall k | 0 <= k < |es| :: HeldBy(h, v.id, es[k].value);
        EncodesAvoidingEntries(h, es, ms, path + {v.id});
    }
  }

  lemma AvoidsRoot(h: Heap, id: nat, path: set<nat>)
    requires Avoids(h, Ref(id), path)
    ensures id !in path
  {
    RootReached(h, id);
  }

  lemma {:induction false} EncodesAvoidingAll(h: Heap, vs: seq<Val>, ts: seq<Tree>, path: set<nat>)
    requires Clean(h) && UnfoldsAll(h, vs, ts) && forall k | 0 <= k < |vs| :: Avoids(h, vs[k], path)
    ensures EncodeAll(h, vs, path) == Ok(PrintElements(ts))
    decreases ts, 0
  {
    hide Clean, Avoids, EncodeVal, Unfolds;
    if ts != [] {
      EncodesAvoiding(h, vs[0], ts[0], path);
      EncodesAvoidingAll(h, vs[1..], ts[1..], path);
    }
  }

  lemma {:induction false} EncodesAvoidingEntries(h: Heap, es: seq<Entry>, ms: seq<Member>, path: set<nat>)
    requires Clean(h) && UnfoldsEntries(h, es, ms) && forall k | 0 <= k < |es| :: Avoids(h, es[k].value, path)
    ensures EncodeEntries(h, es, path) == Ok(PrintMembers(ms))
    decreases ms, 0
  {
    hide Clean, Avoids, EncodeVal, Unfolds;
    if ms != [] {
      EncodesAvoiding(h, es[0].value, ms[0].value, path);
      EncodesAvoidingEntries(h, es[1..], ms[1..], path);
    }
  }

  lemma {:induction false} AllEncoded(h: Heap, vs: seq<Val>, path: set<nat>, k: nat)
    requires EncodeAll(h, vs, path).Ok? && k < |vs|
    ensures EncodeVal(h, vs[k], path).Ok?
    decreases |vs|
  {
    hide EncodeVal;
    if k > 0 {
      AllEncoded(h, vs[1..], path, k - 1);
    }
  }

  lemma {:induction false} EntriesEncoded(h: Heap, es: seq<Entry>, path: set<nat>, k: nat)
    requires EncodeEntries(h, es, path).Ok? && k < |es|
    ensures EncodeVal(h, es[k].value, path).Ok?
    decreases |es|
  {
    hide EncodeVal;
    if k > 0 {
      EntriesEncoded(h, es[1..], path, k - 1);
    }
  }

  /** Where a table is encoded, what it holds is. */
  lemma HeldEncoded(h: Heap, a: nat, b: nat, path: set<nat>)
    requires Clean(h) && Holds(h, a, b) && EncodeTable(h, a, path).Ok?
    ensures a !in path && EncodeVal(h, Ref(b), path + {a}).Ok?
  {
    var i :| 0 <= i < |h[a].entries| && h[a].entries[i].value == Ref(b);
    hide EncodeVal, Sequence;
    CleanTable(h, a, path);
    if IsArray(h[a].entries) {
      var k := h[a].entries[i].key.i;
      LookupDistinct(h[a].entries, i);
      SequenceAt(h[a].entries, 1, k);
      AllEncoded(h, Sequence(h[a].entries, 1), path + {a}, k - 1);
    } else {
      EntriesEncoded(h, h[a].entries, path + {a}, i);
    }
  }

  lemma {:induction false} EncodedAvoids(h: Heap, v: Val, path: set<nat>, w: seq<nat>)
    requires Clean(h) && EncodeVal(h, v, path).Ok? && Reaches(h, v, w)
    ensures w[|w| - 1] !in path
    decreases |w|
  {
    hide Clean, Holds, EncodeTable;
    InPathFails(h, w[0], path);
    if |w| > 1 {
      assert Holds(h, w[0], w[1]);
      HeldEncoded(h, w[0], w[1], path);
      assert forall i | 0 <= i < |w[1..]| - 1 :: Holds(h, w[1..][i], w[1..][i + 1]) by {
        assert forall i | 0 <= i < |w[1..]| :: w[1..][i] == w[i + 1];
      }
      EncodedAvoids(h, Ref(w[1]), path + {w[0]}, w[1..]);
    }
  }

  lemma InPathFails(h: Heap, id: nat, path: set<nat>)
    ensures EncodeTable(h, id, path).Ok? ==> id !in path
  {
  }

  lemma PartReaches(f: Heap, h: Heap, v: Val, id: nat)
    requires Part(f, h) && Encodable(f, v)
    ensures Reached(f, v, id) <==> Reached(h, v, id)
  {
    hide Part;
    if Reached(h, v, id) {
      var w :| Reaches(h, v, w) && w[|w| - 1] == id;
      PartWalk(f, h, w);
      assert Reaches(f, v, w);
    }
    if Reached(f, v, id) {
      var w :| Reaches(f, v, w) && w[|w| - 1] == id;
      WholeWalk(f, h, w);
      assert Reaches(h, v, w);
    }
  }

  /** In the middle of an encoding, with any tables on the path: a value that has
      an unfolding is printed as that tree if and only if no table that it
      reaches is on the path. */
  lemma EncodesOnPath(h: Heap, v: Val, t: Tree, path: set<nat>)
    requires CleanFrom(h, v) && Unfolds(h, v, t)
    ensures EncodeVal(h, v, path) == Ok(Print(t)) <==> Avoids(h, v, path)
  {
    hide Clean, Encodable, CleanFrom, From, Unfolds, Reached;
    var f := From(h, v);
    FromClean(h, v);
    FromPart(h, v);
    PartEncodes(f, h, v, path);
    WholeUnfolds(f, h, v, t);
    forall id ensures Reached(f, v, id) <==> Reached(h, v, id) {
      PartReaches(f, h, v, id);
    }
    if Avoids(h, v, path) {
      EncodesAvoiding(f, v, t, path);
    }
    if EncodeVal(f, v, path).Ok? {
      ReachedAvoid(f, v, path);
    }
  }

  lemma ReachedAvoid(h: Heap, v: Val, path: set<nat>)
    requires Clean(h) && EncodeVal(h, v, path).Ok?
    ensures Avoids(h, v, path)
  {
    hide Clean, EncodeVal;
    forall id | Reached(h, v, id) ensures id !in path {
      var w :| Reaches(h, v, w) && w[|w| - 1] == id;
      EncodedAvoids(h, v, path, w);
    }
  }

  /** The sparseness check only counts: a table with the keys 1, 3 and 0, whose
      length may be 3, passes it, and all but its first value are lost. */
  lemma SparseTablePasses()
    ensures
      var es := [Entry(NumKey(1), BoolVal(true)), Entry(NumKey(3), BoolVal(true)), Entry(NumKey(0), BoolVal(true))];
      var t := LuaTable(es, 3);
      LuaInvariant(t) && !IsArray(t.entries) && EncodeVal(map[0 := t], Ref(0), {}) == Ok("[true]")
  {
    var es := [Entry(NumKey(1), BoolVal(true)), Entry(NumKey(3), BoolVal(true)), Entry(NumKey(0), BoolVal(true))];
    var t := LuaTable(es, 3);
    assert es[1..] == [es[1], es[2]] && es[2..] == [es[2]];
    assert es[1..][1..] == es[2..] && es[2..][1..] == [];
    assert Lookup(es, NumKey(1)) == BoolVal(true);
    assert Lookup(es[2..], NumKey(2)) == NilVal;
    assert Lookup(es, NumKey(2)) == NilVal == Lookup(es, NumKey(4));
    assert Lookup(es, NumKey(3)) == BoolVal(true);
    assert Sequence(es, 2) == [] && Sequence(es, 1) == [BoolVal(true)];
    var h := map[0 := t];
    assert [BoolVal(true)][1..] == [] && EncodeAll(h, [], {} + {0}) == Ok([]);
    assert EncodeVal(h, BoolVal(true), {} + {0}) == Ok("true");
    assert ["true"] + [] == ["true"];
    assert EncodeAll(h, [BoolVal(true)], {} + {0}) == Ok(["true"]);
    assert "[" + Join(["true"]) + "]" == "[true]";
  }
}
