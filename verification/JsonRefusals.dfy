/** Which values `json.encode` refuses, on any tables at all: exactly those from
    which the encoder comes to a fault. */
module JsonRefusals {
  import opened JsonGraph

  /** The encoder takes a table for an array if it is empty or has an element
      1. */
  predicate TakenForArray(t: LuaTable) {
    t.entries == [] || Lookup(t.entries, NumKey(1)) != NilVal
  }

  /** The values the encoder visits in a table, if it gets through. */
  function Inside(t: LuaTable): seq<Val> {
    if TakenForArray(t) then Sequence(t.entries, 1)
    else seq(|t.entries|, i requires 0 <= i < |t.entries| => t.entries[i].value)
  }

  predicate OnlyNumbers(t: LuaTable) {
    forall e | e in t.entries :: e.key.NumKey? || e.key.FractionKey?
  }

  predicate OnlyStrings(t: LuaTable) {
    forall e | e in t.entries :: e.key.StrKey?
  }

  /** What is wrong with a value that is come to by way of the tables in
      `path`. */
  predicate Fault(h: Heap, path: set<nat>, v: Val, e: Error) {
    match e
    case UnexpectedType => v == OtherVal
    case NoSuchTable => v.Ref? && v.id !in h
    case Circular => v.Ref? && v.id in h && v.id in path
    case InvalidKeys =>
      && v.Ref? && v.id in h && v.id !in path
      && if TakenForArray(h[v.id]) then !OnlyNumbers(h[v.id]) else !OnlyStrings(h[v.id])
    case SparseArray =>
      && v.Ref? && v.id in h && v.id !in path
      && TakenForArray(h[v.id]) && OnlyNumbers(h[v.id]) && |h[v.id].entries| != h[v.id].border
  }

  /** A way of the encoder: the tables of `w`, one inside the other, from `v` to
      `x`. An array that it does not get into is not on a way. */
  predicate Leads(h: Heap, v: Val, w: seq<nat>, x: Val)
    decreases |w|
  {
    if w == [] then v == x
    else
      && v == Ref(w[0]) && w[0] in h && Entered(h[w[0]])
      && exists i :: 0 <= i < |Inside(h[w[0]])| && Leads(h, Inside(h[w[0]])[i], w[1..], x)
  }

  predicate Entered(t: LuaTable) {
    TakenForArray(t) ==> OnlyNumbers(t) && |t.entries| == t.border
  }

  function PathOf(path: set<nat>, w: seq<nat>): set<nat> {
    path + set id | id in w
  }

  lemma {:induction false} AllRefused(h: Heap, vs: seq<Val>, path: set<nat>, i: nat)
    requires i < |vs| && EncodeVal(h, vs[i], path).Err?
    ensures EncodeAll(h, vs, path).Err?
  {
    hide EncodeVal;
    if i > 0 {
      AllRefused(h, vs[1..], path, i - 1);
    }
  }

  lemma {:induction false} EntriesRefused(h: Heap, es: seq<Entry>, path: set<nat>, i: nat)
    requires i < |es| && (EncodeVal(h, es[i].value, path).Err? || !es[i].key.StrKey?)
    ensures EncodeEntries(h, es, path).Err?
  {
    hide EncodeVal;
    if i > 0 {
      EntriesRefused(h, es[1..], path, i - 1);
    }
  }

  lemma {:induction false} AllFault(h: Heap, vs: seq<Val>, path: set<nat>) returns (i: nat)
    requires EncodeAll(h, vs, path).Err?
    ensures i < |vs| && EncodeVal(h, vs[i], path) == Err(EncodeAll(h, vs, path).error)
  {
    hide EncodeVal;
    if EncodeVal(h, vs[0], path).Err? {
      i := 0;
    } else {
      i := AllFault(h, vs[1..], path);
      i := i + 1;
    }
  }

  lemma {:induction false} EntriesFault(h: Heap, es: seq<Entry>, path: set<nat>) returns (i: nat)
    requires EncodeEntries(h, es, path).Err?
    ensures i < |es|
    ensures if es[i].key.StrKey? then EncodeVal(h, es[i].value, path) == Err(EncodeEntries(h, es, path).error)
            else EncodeEntries(h, es, path) == Err(InvalidKeys)
  {
    hide EncodeVal;
    if !es[0].key.StrKey? || EncodeVal(h, es[0].value, path).Err? {
      i := 0;
    } else {
      i := EntriesFault(h, es[1..], path);
      i := i + 1;
    }
  }

  /** What becomes of a table, by its kind and its contents. */
  lemma TableOutcome(h: Heap, id: nat, path: set<nat>)
    requires id in h && id !in path
    ensures var t := h[id]; var r := EncodeVal(h, Ref(id), path);
            && (TakenForArray(t) && !OnlyNumbers(t) ==> r == Err(InvalidKeys))
            && (TakenForArray(t) && OnlyNumbers(t) && |t.entries| != t.border ==> r == Err(SparseArray))
            && (TakenForArray(t) && Entered(t) ==> r == Bracketed("[", EncodeAll(h, Inside(t), path + {id}), "]"))
            && (!TakenForArray(t) ==> r == Bracketed("{", EncodeEntries(h, t.entries, path + {id}), "}"))
  {
    hide EncodeAll, EncodeEntries, Sequence;
    var t := h[id];
    assert OnlyNumbers(t) <==> AllNumeric(t.entries) by {
      if OnlyNumbers(t) {
        assert forall i | 0 <= i < |t.entries| :: t.entries[i] in t.entries;
      }
    }
  }

  /** Wherever the encoder comes to a fault, it refuses. */
  lemma {:induction false} FaultRefuses(h: Heap, v: Val, path: set<nat>, w: seq<nat>, x: Val, e: Error)
    requires Leads(h, v, w, x) && Fault(h, PathOf(path, w), x, e)
    ensures EncodeVal(h, v, path).Err?
    decreases |w|
  {
    hide EncodeAll, EncodeEntries, EncodeVal, Sequence;
    if w == [] {
      assert PathOf(path, w) == path;
      DirectFault(h, v, path, e);
    } else if w[0] !in path {
      var id, t := w[0], h[w[0]];
      var i :| 0 <= i < |Inside(t)| && Leads(h, Inside(t)[i], w[1..], x);
      assert PathOf(path, w) == PathOf(path + {id}, w[1..]);
      FaultRefuses(h, Inside(t)[i], path + {id}, w[1..], x, e);
      TableOutcome(h, id, path);
      if TakenForArray(t) {
        AllRefused(h, Inside(t), path + {id}, i);
      } else {
        EntriesRefused(h, t.entries, path + {id}, i);
      }
    } else {
      DirectFault(h, v, path, Circular);
    }
  }

  lemma DirectFault(h: Heap, v: Val, path: set<nat>, e: Error)
    requires Fault(h, path, v, e)
    ensures EncodeVal(h, v, path).Err?
  {
    hide EncodeAll, EncodeEntries, Sequence, TakenForArray;
    if e == InvalidKeys || e == SparseArray {
      TableOutcome(h, v.id, path);
      if !TakenForArray(h[v.id]) {
        var k :| 0 <= k < |h[v.id].entries| && !h[v.id].entries[k].key.StrKey?;
        EntriesRefused(h, h[v.id].entries, path + {v.id}, k);
      }
    }
  }

  /** Whenever the encoder refuses, it has come to a fault of that kind. */
  lemma {:induction false} RefusalHasFault(h: Heap, v: Val, path: set<nat>) returns (w: seq<nat>, x: Val)
    requires EncodeVal(h, v, path).Err?
    ensures Leads(h, v, w, x) && Fault(h, PathOf(path, w), x, EncodeVal(h, v, path).error)
    decreases h.Keys - path
  {
    hide EncodeAll, EncodeEntries, Sequence, Inside, OnlyNumbers, OnlyStrings, TakenForArray;
    w, x := [], v;
    assert PathOf(path, []) == path;
    if v.Ref? && v.id in h && v.id !in path {
      var id, t := v.id, h[v.id];
      TableOutcome(h, id, path);
      if Entered(t) {
        var i: nat;
        if TakenForArray(t) {
          i := AllFault(h, Inside(t), path + {id});
        } else {
          i := EntriesFault(h, t.entries, path + {id});
          ObjectInside(t, i);
        }
        if TakenForArray(t) || t.entries[i].key.StrKey? {
          w, x := RefusalHasFault(h, Inside(t)[i], path + {id});
          assert PathOf(path + {id}, w) == PathOf(path, [id] + w);
          assert ([id] + w)[1..] == w;
          w := [id] + w;
        }
      }
    }
  }

  lemma ObjectInside(t: LuaTable, i: nat)
    requires !TakenForArray(t) && i < |t.entries|
    ensures |Inside(t)| == |t.entries| && Inside(t)[i] == t.entries[i].value
    ensures OnlyStrings(t) ==> t.entries[i].key.StrKey?
  {
  }

  /** `json.encode` refuses a value if and only if some way from it leads to a
      fault: a value without a text, a table that is on its own way, or one whose
      keys are not all numbers or all strings or whose length is not their
      count. */
  lemma RefusedExactly(h: Heap, v: Val)
    ensures EncodeVal(h, v, {}).Err? <==> exists w, x, e :: Leads(h, v, w, x) && Fault(h, PathOf({}, w), x, e)
  {
    hide EncodeVal, Leads, Fault;
    if EncodeVal(h, v, {}).Err? {
      var w, x := RefusalHasFault(h, v, {});
    }
    forall w, x, e | Leads(h, v, w, x) && Fault(h, PathOf({}, w), x, e)
      ensures EncodeVal(h, v, {}).Err?
    {
      FaultRefuses(h, v, {}, w, x, e);
    }
  }
}
