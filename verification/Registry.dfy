/** The index of src/core/module.cpp, from an event to the modules that listen
    to it, as a value. */
module Registry {

  /** A C++ map whose `operator[]` makes an empty list of a missing one. */
  function At<T>(index: map<string, seq<T>>, event: string): seq<T> {
    if event in index then index[event] else []
  }

  predicate Distinct<T(==)>(xs: seq<T>) {
    forall i, j | 0 <= i < j < |xs| :: xs[i] != xs[j]
  }

  /** `remove_if` on one value. */
  function Without<T(==)>(xs: seq<T>, x: T): (r: seq<T>)
    ensures x !in r && |r| <= |xs|
  {
    if xs == [] then [] else (if xs[0] == x then [] else [xs[0]]) + Without(xs[1..], x)
  }

  lemma {:induction false} WithoutKeeps<T>(xs: seq<T>, x: T, y: T)
    ensures y in Without(xs, x) <==> y in xs && y != x
  {
    if xs != [] {
      WithoutKeeps(xs[1..], x, y);
    }
  }

  /** What `Without` does is done to each value alone: the other values stay as
      often as they were, and in their order. */
  lemma {:induction false} WithoutJoined<T>(xs: seq<T>, ys: seq<T>, x: T)
    ensures Without(xs + ys, x) == Without(xs, x) + Without(ys, x)
  {
    hide Without;
    NothingWithout(x);
    if xs == [] {
      assert xs + ys == ys;
    } else {
      assert xs + ys == [xs[0]] + (xs[1..] + ys) && xs == [xs[0]] + xs[1..];
      WithoutJoined(xs[1..], ys, x);
      WithoutOne(xs[0], xs[1..] + ys, x);
      WithoutOne(xs[0], xs[1..], x);
    }
  }

  lemma WithoutOne<T>(y: T, ys: seq<T>, x: T)
    ensures Without([y] + ys, x) == (if y == x then [] else [y]) + Without(ys, x)
  {
    assert ([y] + ys)[1..] == ys;
  }

  lemma {:induction false} WithoutCounts<T>(xs: seq<T>, x: T, y: T)
    ensures multiset(Without(xs, x))[y] == if y == x then 0 else multiset(xs)[y]
  {
    if xs != [] {
      WithoutCounts(xs[1..], x, y);
      assert xs == [xs[0]] + xs[1..];
    }
  }

  /** The first occurrence goes, and nothing else. */
  lemma {:induction false} WithoutFirstIs<T>(xs: seq<T>, x: T, ys: seq<T>)
    requires x !in xs
    ensures WithoutFirst(xs + [x] + ys, x) == xs + ys
    ensures WithoutFirst(xs, x) == xs
  {
    if xs == [] {
      assert xs + [x] + ys == [x] + ys;
    } else {
      assert xs + [x] + ys == [xs[0]] + (xs[1..] + [x] + ys);
      WithoutFirstIs(xs[1..], x, ys);
    }
  }

  /** `erase(find(...))` */
  function WithoutFirst<T(==)>(xs: seq<T>, x: T): seq<T> {
    if xs == [] then [] else if xs[0] == x then xs[1..] else [xs[0]] + WithoutFirst(xs[1..], x)
  }

  function Listed<T(==)>(index: map<string, seq<T>>, event: string, m: T): map<string, seq<T>> {
    index[event := if m in At(index, event) then At(index, event) else At(index, event) + [m]]
  }

  function Unlisted<T(==)>(index: map<string, seq<T>>, event: string, m: T): map<string, seq<T>> {
    index[event := Without(At(index, event), m)]
  }

  /** What `clearList` does. */
  function Cleared<T>(index: map<string, seq<T>>, event: string): (r: map<string, seq<T>>)
    ensures forall e :: At(r, e) == At(index, e)
    ensures event in r ==> r[event] != []
    ensures forall e | e != event :: e in r <==> e in index
  {
    if event in index && |index[event]| == 0 then index - {event} else index
  }

  ghost predicate DistinctIndex<T>(index: map<string, seq<T>>) {
    forall e :: Distinct(At(index, e))
  }

  ghost predicate Within<T>(index: map<string, seq<T>>, all: set<T>) {
    forall e, i | 0 <= i < |At(index, e)| :: At(index, e)[i] in all
  }

  /** The module `m` is listed, once, for those events exactly that it listens to. */
  ghost predicate Agrees<T>(index: map<string, seq<T>>, m: T, active: set<string>) {
    forall e :: m in At(index, e) <==> e in active
  }

  lemma {:induction false} WithoutDistinct<T>(xs: seq<T>, x: T)
    requires Distinct(xs)
    ensures Distinct(Without(xs, x))
  {
    if xs != [] {
      WithoutDistinct(xs[1..], x);
      WithoutKeeps(xs[1..], x, xs[0]);
      forall j | 1 <= j < |xs| ensures xs[j] in xs[1..] {
        assert xs[j] == xs[1..][j - 1];
      }
      assert xs[0] !in xs[1..];
      assert xs[0] !in Without(xs[1..], x);
    }
  }

  lemma {:induction false} WithoutAppended<T>(xs: seq<T>, x: T)
    ensures Without(xs + [x], x) == Without(xs, x)
  {
    if xs != [] {
      assert (xs + [x])[1..] == xs[1..] + [x];
      WithoutAppended(xs[1..], x);
    }
  }

  lemma {:induction false} WithoutTwice<T>(xs: seq<T>, x: T)
    ensures Without(Without(xs, x), x) == Without(xs, x)
  {
    NothingToRemove(Without(xs, x), x);
  }

  lemma {:induction false} NothingToRemove<T>(xs: seq<T>, x: T)
    requires x !in xs
    ensures Without(xs, x) == xs
  {
    if xs != [] {
      NothingToRemove(xs[1..], x);
    }
  }

  /** From `index` to `r`, only the place of `m` in the list of `event`
      changed: to be in it, or not. */
  ghost predicate Moved<T>(index: map<string, seq<T>>, r: map<string, seq<T>>, event: string, m: T, isIn: bool) {
    && (forall e :: Without(At(r, e), m) == Without(At(index, e), m))
    && (forall e | e != event :: At(r, e) == At(index, e))
    && (m in At(r, event) <==> isIn)
  }

  /** A module that starts to listen comes last; the others keep their order. */
  lemma ListedKeeps<T>(index: map<string, seq<T>>, event: string, m: T)
    requires DistinctIndex(index)
    ensures DistinctIndex(Listed(index, event, m)) && Moved(index, Listed(index, event, m), event, m, true)
  {
    hide Without, Distinct;
    var r := Listed(index, event, m);
    WithoutAppended(At(index, event), m);
    assert Distinct(At(index, event));
    DistinctAppended(At(index, event), m);
    forall e ensures Distinct(At(r, e)) && Without(At(r, e), m) == Without(At(index, e), m) {
      assert Distinct(At(index, e));
      assert e != event ==> At(r, e) == At(index, e);
    }
  }

  lemma DistinctAppended<T>(xs: seq<T>, x: T)
    requires Distinct(xs)
    ensures x !in xs ==> Distinct(xs + [x])
  {
  }

  lemma UnlistedKeeps<T>(index: map<string, seq<T>>, event: string, m: T)
    requires DistinctIndex(index)
    ensures DistinctIndex(Unlisted(index, event, m)) && Moved(index, Unlisted(index, event, m), event, m, false)
  {
    hide Without, Distinct;
    var r := Unlisted(index, event, m);
    assert Distinct(At(index, event));
    WithoutDistinct(At(index, event), m);
    WithoutTwice(At(index, event), m);
    forall e ensures Distinct(At(r, e)) && Without(At(r, e), m) == Without(At(index, e), m) {
      assert Distinct(At(index, e));
      assert e != event ==> At(r, e) == At(index, e);
    }
  }

  /** The other modules are listed for what they were listed for. */
  lemma MovedKeepsOther<T>(index: map<string, seq<T>>, r: map<string, seq<T>>, event: string, m: T, isIn: bool, o: T,
      active: set<string>)
    requires Moved(index, r, event, m, isIn) && o != m && Agrees(index, o, active)
    ensures Agrees(r, o, active)
  {
    forall e ensures o in At(r, e) <==> e in active {
      WithoutKeeps(At(r, e), m, o);
      WithoutKeeps(At(index, e), m, o);
    }
  }

  lemma MovedAgrees<T>(index: map<string, seq<T>>, r: map<string, seq<T>>, event: string, m: T, isIn: bool,
      active: set<string>)
    requires Moved(index, r, event, m, isIn) && Agrees(index, m, active)
    ensures Agrees(r, m, if isIn then active + {event} else active - {event})
  {
  }

  lemma MovedWithin<T>(index: map<string, seq<T>>, r: map<string, seq<T>>, event: string, m: T, isIn: bool, all: set<T>)
    requires Moved(index, r, event, m, isIn) && Within(index, all) && m in all
    ensures Within(r, all)
  {
    forall e, i | 0 <= i < |At(r, e)| ensures At(r, e)[i] in all {
      var x := At(r, e)[i];
      WithoutKeeps(At(r, e), m, x);
      WithoutKeeps(At(index, e), m, x);
    }
  }

  /** A module's own callbacks for the events with no identifier. */
  function Active(own: map<string, seq<int>>): set<string> {
    set e | e in own && own[e] != []
  }

  function ActiveIds(own: map<string, map<string, int>>): set<string> {
    set e | e in own && own[e] != map[]
  }

  function Dropped(own: map<string, seq<int>>, event: string, callback: int): map<string, seq<int>> {
    if event !in own then own
    else
      var rest := Without(own[event], callback);
      if rest == [] then own - {event} else own[event := rest]
  }

  /** Every other callback of the event stays, and every other event. */
  lemma DroppedIs(own: map<string, seq<int>>, event: string, callback: int)
    requires Active(own) == own.Keys
    ensures var r := Dropped(own, event, callback);
            && (event in own <==> At(own, event) != [])
            && At(r, event) == Without(At(own, event), callback)
            && (event in r <==> Without(At(own, event), callback) != [])
            && forall e | e != event :: At(r, e) == At(own, e) && (e in r <==> e in own)
  {
    hide Without;
    NothingWithout(callback);
  }

  lemma NothingWithout<T>(x: T)
    ensures Without([], x) == []
  {
  }

  lemma DroppedIdIs(own: map<string, map<string, int>>, event: string, identifier: string)
    ensures var r := DroppedId(own, event, identifier);
            && IdsAt(r, event) == IdsAt(own, event) - {identifier}
            && forall e | e != event :: IdsAt(r, e) == IdsAt(own, e)
  {
    assert identifier !in IdsAt(own, event) ==> IdsAt(own, event) - {identifier} == IdsAt(own, event);
  }

  lemma ListedIs<T>(index: map<string, seq<T>>, event: string, m: T)
    ensures var r := Listed(index, event, m);
            && At(r, event) == (if m in At(index, event) then At(index, event) else At(index, event) + [m])
            && forall e | e != event :: At(r, e) == At(index, e)
  {
  }

  lemma ActiveDropped(own: map<string, seq<int>>, event: string, callback: int)
    requires Active(own) == own.Keys
    ensures var r := Dropped(own, event, callback);
            && Active(r) == r.Keys
            && r.Keys == if event in r then own.Keys else own.Keys - {event}
  {
    hide Without;
    var r := Dropped(own, event, callback);
    forall e | e in r
      ensures e in own && r[e] != []
    {
      if e != event {
        assert e in Active(own);
      }
    }
    assert Active(r) == r.Keys;
    if event in r {
      assert r.Keys == own.Keys;
    } else {
      assert r.Keys == own.Keys - {event};
    }
  }

  function IdsAt(own: map<string, map<string, int>>, event: string): map<string, int> {
    if event in own then own[event] else map[]
  }

  function DroppedId(own: map<string, map<string, int>>, event: string, identifier: string)
      : map<string, map<string, int>>
  {
    if event in own && identifier in own[event] then own[event := own[event] - {identifier}] else own
  }

  lemma ActiveIdsDropped(own: map<string, map<string, int>>, event: string, identifier: string)
    ensures var r := DroppedId(own, event, identifier);
            ActiveIds(r) == if IdsAt(r, event) == map[] then ActiveIds(own) - {event} else ActiveIds(own)
  {
    assert forall m: map<string, int>, k | k in m :: m != map[];
  }

  /** From `index` to `r`, the module `m` was taken off the lists of `events`,
      and nothing else happened. */
  ghost predicate Off<T>(index: map<string, seq<T>>, r: map<string, seq<T>>, m: T, events: set<string>) {
    forall e :: At(r, e) == if e in events then Without(At(index, e), m) else At(index, e)
  }

  lemma OffNone<T>(index: map<string, seq<T>>, m: T)
    ensures Off(index, index, m, {})
  {
  }

  lemma OffThen<T>(index: map<string, seq<T>>, between: map<string, seq<T>>, r: map<string, seq<T>>, m: T,
      first: set<string>, second: set<string>)
    requires Off(index, between, m, first) && Off(between, r, m, second) && first !! second
    ensures Off(index, r, m, first + second)
  {
    hide At, Without;
  }

  /** A module that was taken off every list it was on is on none. */
  lemma OffAll<T>(index: map<string, seq<T>>, r: map<string, seq<T>>, m: T, events: set<string>)
    requires Off(index, r, m, events) && Agrees(index, m, events)
    ensures forall e :: At(r, e) == Without(At(index, e), m)
  {
    hide At, Without;
    forall e ensures At(r, e) == Without(At(index, e), m) {
      if e !in events {
        NothingToRemove(At(index, e), m);
      }
    }
  }

  /** Only callbacks of `rest` are left for the event. */
  predicate OnlyLeft(own: map<string, seq<int>>, event: string, rest: seq<int>) {
    event in own ==> own[event] != [] && rest != [] && forall i | 0 <= i < |own[event]| :: own[event][i] in rest
  }

  lemma LeftAtFirst(own: map<string, seq<int>>, event: string)
    requires Active(own) == own.Keys
    ensures event in own ==> OnlyLeft(own, event, own[event])
  {
  }

  lemma NothingLeft(own: map<string, seq<int>>, event: string)
    requires OnlyLeft(own, event, [])
    ensures event !in own
  {
  }

  lemma DroppedLeaves(own: map<string, seq<int>>, event: string, rest: seq<int>)
    requires OnlyLeft(own, event, rest) && rest != []
    ensures var r := Dropped(own, event, rest[0]);
            OnlyLeft(r, event, rest[1..]) && r - {event} == own - {event} && r.Keys <= own.Keys
  {
    if event in own {
      var left := Without(own[event], rest[0]);
      forall i | 0 <= i < |left| ensures left[i] in rest[1..] {
        WithoutKeeps(own[event], rest[0], left[i]);
      }
      assert left != [] ==> left[0] in rest[1..];
    }
  }

  lemma OffStep<T>(index: map<string, seq<T>>, between: map<string, seq<T>>, m: T, event: string, was: bool,
      still: bool)
    requires Off(index, between, m, if was then {} else {event}) && (still ==> was)
    ensures var left := if was && !still then Unlisted(between, event, m) else between;
            Off(index, Cleared(left, event), m, if still then {} else {event})
  {
    hide Without, Cleared;
  }

  /** Whether `own` has the callback under the identifier. */
  predicate Holds(own: map<string, map<string, int>>, event: string, identifier: string, callback: int) {
    identifier in IdsAt(own, event) && own[event][identifier] == callback
  }

  lemma OffIdStep<T>(index: map<string, seq<T>>, between: map<string, seq<T>>, m: T, event: string, last: bool)
    requires Off(index, between, m, {})
    ensures var left := if last then Unlisted(between, event, m) else between;
            Off(index, Cleared(left, event), m, if last then {event} else {})
  {
    OffStep(index, between, m, event, true, !last);
  }
}
