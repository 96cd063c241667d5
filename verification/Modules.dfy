/** `Module` and `ModuleManager` (src/core/module.cpp and
    include/core/modulemanager.h): the callbacks that each module keeps and the
    manager's index over them. */
module Modules {
  import opened Registry

  /** A reference given back to the Lua registry by `luaL_unref`. */
  datatype Release =
    | Anonymous(event: string, callback: int)
    | Identified(event: string, identifier: string, callback: int)
    | TableRef(ref: int)

  /** A handler invoked in the environment of its module. */
  datatype Call = Call(owner: Module, callback: int)

  function CallsOf(m: Module, callbacks: seq<int>): seq<Call> {
    seq(|callbacks|, i requires 0 <= i < |callbacks| => Call(m, callbacks[i]))
  }

  /** Every callback of every listed module for an event. */
  ghost function PlainCalls(list: seq<Module>, event: string): seq<Call>
    reads list
  {
    if list == [] then [] else CallsOf(list[0], At(list[0].eventCallbacks, event)) + PlainCalls(list[1..], event)
  }

  /** The callback of every listed module for an event and an identifier. */
  ghost function Matches(list: seq<Module>, event: string, identifier: string): seq<Call>
    reads list
  {
    if list == [] then []
    else
      var ids := IdsAt(list[0].identifiedEventCallbacks, event);
      (if identifier in ids then [Call(list[0], ids[identifier])] else []) + Matches(list[1..], event, identifier)
  }

  /** The calls that the test `!= callback` lets through. */
  function Skipping(calls: seq<Call>, last: int): seq<Call> {
    if calls == [] then []
    else if calls[0].callback == last then Skipping(calls[1..], last)
    else [calls[0]] + Skipping(calls[1..], calls[0].callback)
  }

  /** What a handler gives back to `luaEmit`. */
  datatype Answer = Nothing | Integer(value: int)

  function Least(ret: int, a: Answer): int {
    if a.Integer? && a.value < ret then a.value else ret
  }

  function Lowest(answers: nat -> Answer, n: nat): int {
    if n == 0 then 0 else Least(Lowest(answers, n - 1), answers(n - 1))
  }

  lemma LowestStep(answers: nat -> Answer, n: nat)
    ensures Lowest(answers, 0) == 0 && Lowest(answers, n + 1) == Least(Lowest(answers, n), answers(n))
  {
  }

  lemma {:induction false} LowestBounds(answers: nat -> Answer, n: nat)
    ensures var ret := Lowest(answers, n);
            ret <= 0 && (ret == 0 || exists k :: 0 <= k < n && answers(k) == Integer(ret))
    ensures forall k | 0 <= k < n && answers(k).Integer? :: Lowest(answers, n) <= answers(k).value
  {
    if n > 0 {
      LowestBounds(answers, n - 1);
    }
  }

  lemma {:induction false} NoFirst(xs: seq<int>, x: int)
    ensures x !in xs ==> WithoutFirst(xs, x) == xs
  {
    if xs != [] {
      NoFirst(xs[1..], x);
    }
  }

  predicate NotOnce(m: Module, event: string)
    reads m
  {
    forall k | 0 <= k < |At(m.eventCallbacks, event)| :: At(m.eventCallbacks, event)[k] !in m.onceConnects
  }

  /** The identifier is to be disconnected after it was invoked. */
  predicate IsOnce(m: Module, event: string, identifier: string)
    reads m
  {
    identifier in At(m.identifiedOnceConnects, event)
  }

  /** No invocation takes the module off the list that is being gone through: one
      that is to be disconnected has another identifier for the event. */
  predicate Harmless(list: seq<Module>, event: string, identifier: string, last: int)
    reads list
  {
    list == []
    || (var ids := IdsAt(list[0].identifiedEventCallbacks, event);
        if identifier in ids && ids[identifier] != last then
          && (IsOnce(list[0], event, identifier) ==> |ids| > 1)
          && Harmless(list[1..], event, identifier, ids[identifier])
        else Harmless(list[1..], event, identifier, last))
  }

  lemma HarmlessStep(list: seq<Module>, i: nat, event: string, identifier: string, last: int)
    requires i < |list| && Harmless(list[i..], event, identifier, last)
    ensures var ids := IdsAt(list[i].identifiedEventCallbacks, event);
            if identifier in ids && ids[identifier] != last then
              && (IsOnce(list[i], event, identifier) ==> |ids| > 1)
              && Harmless(list[i + 1..], event, identifier, ids[identifier])
            else Harmless(list[i + 1..], event, identifier, last)
  {
    assert list[i..][1..] == list[i + 1..];
  }

  lemma {:induction false} SafeOnce(list: seq<Module>, event: string, identifier: string, last: int)
    requires forall i | 0 <= i < |list| && IsOnce(list[i], event, identifier) ::
               |IdsAt(list[i].identifiedEventCallbacks, event)| > 1
    ensures Harmless(list, event, identifier, last)
  {
    if list != [] {
      SafeOnce(list[1..], event, identifier, last);
      var ids := IdsAt(list[0].identifiedEventCallbacks, event);
      if identifier in ids {
        SafeOnce(list[1..], event, identifier, ids[identifier]);
      }
    }
  }

  lemma NoneOnce(list: seq<Module>, event: string, identifier: string, last: int)
    requires forall i | 0 <= i < |list| :: !IsOnce(list[i], event, identifier)
    ensures Harmless(list, event, identifier, last)
  {
    SafeOnce(list, event, identifier, last);
  }

  lemma ListedOnce(manager: ModuleManager, event: string)
    requires manager.Valid() && event in manager.identifiedModuleEvents
    ensures var list := manager.identifiedModuleEvents[event];
            && (forall i | 0 <= i < |list| :: list[i] in manager.modules)
            && forall i, j | 0 <= i < j < |list| :: list[i] != list[j]
  {
    var list := manager.identifiedModuleEvents[event];
    assert list == At(manager.identifiedModuleEvents, event);
    assert Distinct(At(manager.identifiedModuleEvents, event));
  }

  /** Another identifier of the event is still there afterwards. */
  lemma StillThere(own: map<string, map<string, int>>, event: string, identifier: string)
    requires identifier in IdsAt(own, event) && |IdsAt(own, event)| > 1
    ensures var r := DroppedId(own, event, identifier); event in r && r[event] != map[]
  {
    var left := own[event] - {identifier};
    assert left.Keys == own[event].Keys - {identifier};
    assert |left.Keys| == |own[event].Keys| - 1;
    assert |own[event].Keys| == |own[event]|;
  }

  /** What an emission leaves of a module: an identifier that was connected once
      and invoked is gone, and everything else is there. */
  twostate predicate Emitted(m: Module, invoked: bool, event: string, identifier: string)
    reads m
  {
    if invoked && old(IsOnce(m, event, identifier)) then
      && m.identifiedEventCallbacks == DroppedId(old(m.identifiedEventCallbacks), event, identifier)
      && m.identifiedOnceConnects
         == old(m.identifiedOnceConnects)[event := WithoutFirst(At(old(m.identifiedOnceConnects), event), identifier)]
    else
      && m.identifiedEventCallbacks == old(m.identifiedEventCallbacks)
      && m.identifiedOnceConnects == old(m.identifiedOnceConnects)
  }

  predicate Invoked(calls: seq<Call>, m: Module) {
    exists i :: 0 <= i < |calls| && calls[i].owner == m
  }

  lemma InvokedAppended(calls: seq<Call>, c: Call, m: Module)
    ensures Invoked(calls + [c], m) <==> Invoked(calls, m) || c.owner == m
  {
    if Invoked(calls, m) {
      var i :| 0 <= i < |calls| && calls[i].owner == m;
      assert (calls + [c])[i].owner == m;
    }
    if c.owner == m {
      assert (calls + [c])[|calls|].owner == m;
    }
  }

  lemma NoneInvoked(m: Module)
    ensures !Invoked([], m)
  {
  }

  /** The references given back because of what is invoked. */
  ghost function GivenBack(list: seq<Module>, event: string, identifier: string, last: int): multiset<Release>
    reads list
  {
    if list == [] then multiset{}
    else
      var ids := IdsAt(list[0].identifiedEventCallbacks, event);
      if identifier in ids && ids[identifier] != last then
        OnceRelease(list[0], event, identifier) + GivenBack(list[1..], event, identifier, ids[identifier])
      else GivenBack(list[1..], event, identifier, last)
  }

  ghost function OnceRelease(m: Module, event: string, identifier: string): multiset<Release>
    reads m
  {
    var ids := IdsAt(m.identifiedEventCallbacks, event);
    if identifier in ids && IsOnce(m, event, identifier)
      then multiset{Identified(event, identifier, ids[identifier])} else multiset{}
  }

  lemma GivenBackStep(list: seq<Module>, i: nat, event: string, identifier: string, last: int)
    requires i < |list|
    ensures var ids := IdsAt(list[i].identifiedEventCallbacks, event);
            GivenBack(list[i..], event, identifier, last)
            == if identifier in ids && ids[identifier] != last then
                 OnceRelease(list[i], event, identifier) + GivenBack(list[i + 1..], event, identifier, ids[identifier])
               else GivenBack(list[i + 1..], event, identifier, last)
  {
    assert list[i..][1..] == list[i + 1..];
  }

  lemma NoneGivenBack(event: string, identifier: string, last: int)
    ensures GivenBack([], event, identifier, last) == multiset{}
  {
  }

  lemma Regroup(a: seq<Call>, b: seq<Call>, c: seq<Call>)
    ensures a + b + c == a + (b + c)
  {
  }

  lemma NoPlainCalls(event: string)
    ensures PlainCalls([], event) == []
  {
  }

  lemma PlainCallsStep(list: seq<Module>, i: nat, event: string)
    requires i < |list|
    ensures PlainCalls(list[i..], event) == CallsOf(list[i], At(list[i].eventCallbacks, event))
            + PlainCalls(list[i + 1..], event)
  {
    assert list[i..][1..] == list[i + 1..];
  }

  lemma NoMatches(event: string, identifier: string, last: int)
    ensures Skipping(Matches([], event, identifier), last) == []
  {
  }

  lemma MatchesStep(list: seq<Module>, i: nat, event: string, identifier: string, last: int)
    requires i < |list|
    ensures var ids := IdsAt(list[i].identifiedEventCallbacks, event);
            Skipping(Matches(list[i..], event, identifier), last)
            == if identifier in ids && ids[identifier] != last
               then [Call(list[i], ids[identifier])]
                   + Skipping(Matches(list[i + 1..], event, identifier), ids[identifier])
               else Skipping(Matches(list[i + 1..], event, identifier), last)
  {
    assert list[i..][1..] == list[i + 1..];
    var rest := Matches(list[i + 1..], event, identifier);
    var ids := IdsAt(list[i].identifiedEventCallbacks, event);
    if identifier in ids {
      assert Matches(list[i..], event, identifier) == [Call(list[i], ids[identifier])] + rest;
    } else {
      assert Matches(list[i..], event, identifier) == rest;
    }
  }

  class ModuleManager {
    var moduleEvents: map<string, seq<Module>>
    var identifiedModuleEvents: map<string, seq<Module>>
    var moduleExports: map<Module, map<string, int>>
    /** What was given to `luaL_unref` so far. */
    var released: multiset<Release>
    /** The modules that were made with this manager. */
    ghost var modules: set<Module>

    ghost predicate Valid()
      reads this, modules
    {
      && DistinctIndex(moduleEvents) && DistinctIndex(identifiedModuleEvents)
      && Within(moduleEvents, modules) && Within(identifiedModuleEvents, modules)
      && (forall m | m in modules :: m.manager == this && m.Valid())
    }

    constructor ()
      ensures Valid() && modules == {} && moduleEvents == map[] && identifiedModuleEvents == map[]
              && released == multiset{}
    {
      moduleEvents, identifiedModuleEvents, moduleExports, released, modules := map[], map[], map[], multiset{}, {};
    }

    /** What `clearList` asks for, for either index. */
    method ClearList(event: string)
      requires Valid()
      modifies this`moduleEvents
      ensures Valid() && moduleEvents == Cleared(old(moduleEvents), event)
    {
      hide At, Agrees, DistinctIndex, Within, Cleared;
      SameLists(moduleEvents, Cleared(moduleEvents, event), modules);
      moduleEvents := Cleared(moduleEvents, event);
    }

    method ClearIdentifiedList(event: string)
      requires Valid()
      modifies this`identifiedModuleEvents
      ensures Valid() && identifiedModuleEvents == Cleared(old(identifiedModuleEvents), event)
    {
      hide At, Agrees, DistinctIndex, Within, Cleared;
      SameLists(identifiedModuleEvents, Cleared(identifiedModuleEvents, event), modules);
      identifiedModuleEvents := Cleared(identifiedModuleEvents, event);
    }

    /** C++ defines the loops of an emission: no handler that it invokes takes
        itself off a list that is being gone through. */
    ghost predicate Defined(event: string, identifier: string)
      reads this, At(moduleEvents, event), At(identifiedModuleEvents, event)
    {
      if identifier == "" then
        forall i | 0 <= i < |At(moduleEvents, event)| :: NotOnce(At(moduleEvents, event)[i], event)
      else Harmless(At(identifiedModuleEvents, event), event, identifier, 0)
    }

    /** `emitNoRet` and `emit`, with handlers that leave the registry alone:
        `calls` are the invocations, in order. What was connected once is
        disconnected behind its invocation. */
    method Emit(event: string, identifier: string) returns (calls: seq<Call>)
      requires Valid() && Defined(event, identifier)
      modifies this`identifiedModuleEvents, this`released
      modifies modules`identifiedEventCallbacks, modules`identifiedOnceConnects
      ensures Valid() && modules == old(modules)
      ensures identifier == "" ==>
                && calls == PlainCalls(At(moduleEvents, event), event)
                && identifiedModuleEvents == old(identifiedModuleEvents) && released == old(released)
                && forall m | m in modules :: Emitted(m, false, event, identifier)
      ensures identifier != "" ==>
                && calls == old(Skipping(Matches(At(identifiedModuleEvents, event), event, identifier), 0))
                && identifiedModuleEvents
                   == old(identifiedModuleEvents)[event := At(old(identifiedModuleEvents), event)]
                && released == old(released) + old(GivenBack(At(identifiedModuleEvents, event), event, identifier, 0))
                && forall m | m in modules :: Emitted(m, Invoked(calls, m), event, identifier)
    {
      hide Agrees, DistinctIndex, Within, Active, ActiveIds;
      hide Matches, Skipping, PlainCalls, GivenBack, Harmless, DroppedId;
      if identifier == "" {
        calls := EmitPlain(event);
      } else {
        var ret;
        ret, calls := EmitIdentified(event, identifier, _ => Nothing);
      }
    }

    method EmitPlain(event: string) returns (calls: seq<Call>)
      ensures calls == PlainCalls(At(moduleEvents, event), event)
    {
      hide CallsOf, PlainCalls;
      calls := [];
      var list := [];
      if event in moduleEvents {
        list := moduleEvents[event];
        for i := 0 to |list|
          invariant calls + PlainCalls(list[i..], event) == PlainCalls(list, event)
        {
          var callbacks := list[i].GetEventCallback(event);
          var more := CallAll(list[i], callbacks);
          PlainCallsStep(list, i, event);
          Regroup(calls, more, PlainCalls(list[i + 1..], event));
          calls := calls + more;
        }
      }
      assert list[|list|..] == [];
      NoPlainCalls(event);
    }

    method CallAll(m: Module, callbacks: seq<int>) returns (calls: seq<Call>)
      ensures calls == CallsOf(m, callbacks)
    {
      calls := [];
      for k := 0 to |callbacks|
        invariant calls == CallsOf(m, callbacks[..k])
      {
        calls := calls + [Call(m, callbacks[k])];
      }
      assert callbacks[..|callbacks|] == callbacks;
    }

    /** The identified branch of all three. */
    method EmitIdentified(event: string, identifier: string, answers: nat -> Answer)
        returns (ret: int, calls: seq<Call>)
      requires Valid() && Harmless(At(identifiedModuleEvents, event), event, identifier, 0)
      modifies this`identifiedModuleEvents, this`released
      modifies modules`identifiedEventCallbacks, modules`identifiedOnceConnects
      ensures Valid() && modules == old(modules) && ret == Lowest(answers, |calls|)
      ensures calls == old(Skipping(Matches(At(identifiedModuleEvents, event), event, identifier), 0))
      ensures identifiedModuleEvents == old(identifiedModuleEvents)[event := At(old(identifiedModuleEvents), event)]
      ensures released == old(released) + old(GivenBack(At(identifiedModuleEvents, event), event, identifier, 0))
      ensures forall m | m in modules :: Emitted(m, Invoked(calls, m), event, identifier)
    {
      hide Agrees, DistinctIndex, Within, Active, ActiveIds, Matches, Skipping, Lowest, GivenBack, Harmless, DroppedId;
      var list := ListFor(event);
      ret, calls := CallMatching(list, event, identifier, answers);
    }

    method CallMatching(list: seq<Module>, event: string, identifier: string, answers: nat -> Answer)
        returns (ret: int, calls: seq<Call>)
      requires Valid() && event in identifiedModuleEvents && list == identifiedModuleEvents[event]
      requires Harmless(list, event, identifier, 0)
      modifies this`identifiedModuleEvents, this`released
      modifies modules`identifiedEventCallbacks, modules`identifiedOnceConnects
      ensures Valid() && modules == old(modules) && identifiedModuleEvents == old(identifiedModuleEvents)
      ensures calls == old(Skipping(Matches(list, event, identifier), 0)) && ret == Lowest(answers, |calls|)
      ensures released == old(released) + old(GivenBack(list, event, identifier, 0))
      ensures forall m | m in modules :: Emitted(m, Invoked(calls, m), event, identifier)
    {
      hide Agrees, DistinctIndex, Within, Active, ActiveIds, Matches, Skipping, Lowest, Least;
      hide GivenBack, Harmless, DroppedId, IdsAt, Invoked, WithoutFirst, OnceRelease;
      ret, calls := 0, [];
      var callback := 0;
      LowestStep(answers, 0);
      ListedOnce(this, event);
      assert list[0..] == list;
      forall m: Module | m in modules ensures !Invoked([], m) {
        NoneInvoked(m);
      }
      for i := 0 to |list|
        invariant Valid() && modules == old(modules) && identifiedModuleEvents == old(identifiedModuleEvents)
        invariant ret == Lowest(answers, |calls|)
        invariant Harmless(list[i..], event, identifier, callback)
        invariant calls + Skipping(Matches(list[i..], event, identifier), callback)
                  == old(Skipping(Matches(list, event, identifier), 0))
        invariant released + GivenBack(list[i..], event, identifier, callback)
                  == old(released) + old(GivenBack(list, event, identifier, 0))
        invariant forall m | m in modules :: Emitted(m, Invoked(calls, m), event, identifier)
        invariant forall j | i <= j < |list| :: !Invoked(calls, list[j])
      {
        var ids := IdsAt(list[i].identifiedEventCallbacks, event);
        MatchesStep(list, i, event, identifier, callback);
        HarmlessStep(list, i, event, identifier, callback);
        GivenBackStep(list, i, event, identifier, callback);
        if identifier in ids && ids[identifier] != callback {
          callback := ids[identifier];
          LowestStep(answers, |calls|);
          ret := Least(ret, answers(|calls|));
          Regroup(calls, [Call(list[i], callback)], Skipping(Matches(list[i + 1..], event, identifier), callback));
          AfterInvocation(list[i], event, identifier, list[i + 1..], callback);
          var call := Call(list[i], callback);
          forall m: Module | m in modules
            ensures Invoked(calls + [call], m) <==> Invoked(calls, m) || m == list[i]
          {
            InvokedAppended(calls, call, m);
          }
          calls := calls + [Call(list[i], callback)];
        }
      }
      assert list[|list|..] == [];
      NoMatches(event, identifier, callback);
      NoneGivenBack(event, identifier, callback);
    }

    /** What follows an invocation in the identified branch, when it is harmless.
        The modules that are still to come are not touched. */
    method AfterInvocation(m: Module, event: string, identifier: string, ghost rest: seq<Module>, ghost last: int)
      requires Valid() && m in modules && event in identifiedModuleEvents && m in identifiedModuleEvents[event]
      requires forall j | 0 <= j < |rest| :: rest[j] != m
      requires var ids := IdsAt(m.identifiedEventCallbacks, event);
               identifier in ids && (IsOnce(m, event, identifier) ==> |ids| > 1)
      modifies this`identifiedModuleEvents, this`released, m`identifiedEventCallbacks, m`identifiedOnceConnects
      ensures Valid() && identifiedModuleEvents == old(identifiedModuleEvents)
      ensures Emitted(m, true, event, identifier)
      ensures Harmless(rest, event, identifier, last) == old(Harmless(rest, event, identifier, last))
      ensures Matches(rest, event, identifier) == old(Matches(rest, event, identifier))
      ensures GivenBack(rest, event, identifier, last) == old(GivenBack(rest, event, identifier, last))
      ensures released == old(released) + old(OnceRelease(m, event, identifier))
    {
      hide Agrees, DistinctIndex, Within, Active, ActiveIds, Harmless, Matches, GivenBack;
      if IsOnce(m, event, identifier) {
        StillThere(m.identifiedEventCallbacks, event, identifier);
      }
      m.CheckOnceIdentified(event, identifier);
    }

    /** `luaEmit`. `answers(n)` is what the invocation number `n` returns: an
        integer or nothing. */
    method LuaEmit(event: string, tableRef: int, identifier: string, answers: nat -> Answer)
        returns (ret: int, calls: seq<Call>)
      requires Valid() && Defined(event, identifier)
      modifies this`identifiedModuleEvents, this`released
      modifies modules`identifiedEventCallbacks, modules`identifiedOnceConnects
      ensures Valid() && modules == old(modules)
      ensures identifier == "" ==>
                && calls == PlainCalls(At(moduleEvents, event), event)
                && identifiedModuleEvents == old(identifiedModuleEvents)
                && released == old(released) + multiset{TableRef(tableRef)}
                && forall m | m in modules :: Emitted(m, false, event, identifier)
      ensures identifier != "" ==>
                && calls == old(Skipping(Matches(At(identifiedModuleEvents, event), event, identifier), 0))
                && identifiedModuleEvents
                   == old(identifiedModuleEvents)[event := At(old(identifiedModuleEvents), event)]
                && released == old(released) + old(GivenBack(At(identifiedModuleEvents, event), event, identifier, 0))
                               + multiset{TableRef(tableRef)}
                && forall m | m in modules :: Emitted(m, Invoked(calls, m), event, identifier)
      ensures ret <= 0 && (ret == 0 || exists n :: 0 <= n < |calls| && answers(n) == Integer(ret))
      ensures forall n | 0 <= n < |calls| && answers(n).Integer? :: ret <= answers(n).value
    {
      hide Agrees, DistinctIndex, Within, Active, ActiveIds, Matches, Skipping, Lowest, PlainCalls, At;
      hide GivenBack, Harmless, DroppedId;
      if identifier == "" {
        ret, calls := LuaPlain(event, answers);
      } else {
        ret, calls := EmitIdentified(event, identifier, answers);
      }
      released := released + multiset{TableRef(tableRef)};
      LowestBounds(answers, |calls|);
    }

    method LuaPlain(event: string, answers: nat -> Answer) returns (ret: int, calls: seq<Call>)
      ensures calls == PlainCalls(At(moduleEvents, event), event) && ret == Lowest(answers, |calls|)
    {
      hide CallsOf, PlainCalls, Lowest;
      LowestStep(answers, 0);
      ret, calls := 0, [];
      var list := [];
      if event in moduleEvents {
        list := moduleEvents[event];
        for i := 0 to |list|
          invariant calls + PlainCalls(list[i..], event) == PlainCalls(list, event)
          invariant ret == Lowest(answers, |calls|)
        {
          var callbacks := list[i].GetEventCallback(event);
          var more;
          ret, more := LuaCallAll(list[i], callbacks, answers, ret, |calls|);
          PlainCallsStep(list, i, event);
          Regroup(calls, more, PlainCalls(list[i + 1..], event));
          calls := calls + more;
        }
      }
      assert list[|list|..] == [];
      NoPlainCalls(event);
    }

    method LuaCallAll(m: Module, callbacks: seq<int>, answers: nat -> Answer, ret0: int, n: nat)
        returns (ret: int, calls: seq<Call>)
      requires ret0 == Lowest(answers, n)
      ensures calls == CallsOf(m, callbacks) && ret == Lowest(answers, n + |calls|)
    {
      ret, calls := ret0, [];
      for k := 0 to |callbacks|
        invariant calls == CallsOf(m, callbacks[..k]) && ret == Lowest(answers, n + k)
      {
        ret := Least(ret, answers(n + k));
        calls := calls + [Call(m, callbacks[k])];
      }
      assert callbacks[..|callbacks|] == callbacks;
    }

    /** `m_identifiedModuleEvents[event]`, which makes the missing entry. */
    method ListFor(event: string) returns (list: seq<Module>)
      requires Valid()
      modifies this`identifiedModuleEvents
      ensures Valid() && list == At(old(identifiedModuleEvents), event)
      ensures identifiedModuleEvents == old(identifiedModuleEvents)[event := list]
    {
      hide Agrees, DistinctIndex, Within, Active, ActiveIds;
      list := At(identifiedModuleEvents, event);
      ghost var r := identifiedModuleEvents[event := list];
      assert forall e :: At(r, e) == At(identifiedModuleEvents, e);
      SameLists(identifiedModuleEvents, r, modules);
      identifiedModuleEvents := identifiedModuleEvents[event := list];
    }
  }

  class Module {
    const manager: ModuleManager
    var eventCallbacks: map<string, seq<int>>
    var identifiedEventCallbacks: map<string, map<string, int>>
    var onceConnects: seq<int>
    var identifiedOnceConnects: map<string, seq<string>>

    /** The manager lists this module for an event if and only if it has
        callbacks for it. */
    ghost predicate Valid()
      reads this, manager
    {
      && Agrees(manager.moduleEvents, this, Active(eventCallbacks))
      && Agrees(manager.identifiedModuleEvents, this, ActiveIds(identifiedEventCallbacks))
      && Active(eventCallbacks) == eventCallbacks.Keys
    }

    constructor (manager: ModuleManager)
      requires manager.Valid()
      modifies manager`modules
      ensures this.manager == manager && manager.Valid() && manager.modules == old(manager.modules) + {this}
      ensures eventCallbacks == map[] && identifiedEventCallbacks == map[] && onceConnects == []
              && identifiedOnceConnects == map[]
    {
      this.manager := manager;
      eventCallbacks, identifiedEventCallbacks, onceConnects, identifiedOnceConnects := map[], map[], [], map[];
      new;
      manager.modules := manager.modules + {this};
    }

    method GetEventCallback(event: string) returns (callbacks: seq<int>)
      ensures callbacks == At(eventCallbacks, event)
    {
      if event in eventCallbacks {
        return eventCallbacks[event];
      }
      return [];
    }

    method Connect(event: string, callback: int, identifier: string) returns (ok: bool)
      requires manager.Valid() && this in manager.modules
      modifies this`eventCallbacks, this`identifiedEventCallbacks, manager`moduleEvents, manager`identifiedModuleEvents
      ensures manager.Valid()
      ensures identifier == "" ==>
                && ok && eventCallbacks == old(eventCallbacks)[event := At(old(eventCallbacks), event) + [callback]]
                && manager.moduleEvents == Listed(old(manager.moduleEvents), event, this)
                && identifiedEventCallbacks == old(identifiedEventCallbacks)
                && manager.identifiedModuleEvents == old(manager.identifiedModuleEvents)
      ensures identifier != "" ==>
                && ok == (identifier !in IdsAt(old(identifiedEventCallbacks), event))
                && identifiedEventCallbacks == (if ok then
                     var ids := IdsAt(old(identifiedEventCallbacks), event);
                     old(identifiedEventCallbacks)[event := ids[identifier := callback]]
                     else old(identifiedEventCallbacks))
                && manager.identifiedModuleEvents
                   == (if ok then Listed(old(manager.identifiedModuleEvents), event, this)
                       else old(manager.identifiedModuleEvents))
                && eventCallbacks == old(eventCallbacks) && manager.moduleEvents == old(manager.moduleEvents)
      ensures
        var was, now := At(old(manager.moduleEvents), event), At(manager.moduleEvents, event);
        now == if identifier == "" && this !in was then was + [this] else was
      ensures
        var was, now := At(old(manager.identifiedModuleEvents), event), At(manager.identifiedModuleEvents, event);
        now == if ok && identifier != "" && this !in was then was + [this] else was
    {
      hide At, Agrees, DistinctIndex, Within, Moved, Listed;
      ListedIs(manager.moduleEvents, event, this);
      ListedIs(manager.identifiedModuleEvents, event, this);
      ok := true;
      if identifier == "" {
        eventCallbacks := eventCallbacks[event := At(eventCallbacks, event) + [callback]];
        ghost var before := manager.moduleEvents;
        manager.moduleEvents := Listed(manager.moduleEvents, event, this);
        ListedKeeps(before, event, this);
        MovedKeepsOthers(before, manager.moduleEvents, event, this, true, manager.modules);
        assert Active(eventCallbacks) == old(Active(eventCallbacks)) + {event};
      } else {
        if identifier in IdsAt(identifiedEventCallbacks, event) {
          return false;
        }
        var ids := IdsAt(identifiedEventCallbacks, event);
        identifiedEventCallbacks := identifiedEventCallbacks[event := ids[identifier := callback]];
        ghost var before := manager.identifiedModuleEvents;
        manager.identifiedModuleEvents := Listed(manager.identifiedModuleEvents, event, this);
        ListedKeeps(before, event, this);
        MovedKeepsOthers(before, manager.identifiedModuleEvents, event, this, true, manager.modules);
        assert ActiveIds(identifiedEventCallbacks) == old(ActiveIds(identifiedEventCallbacks)) + {event};
      }
    }

    method ConnectOnce(event: string, callback: int, identifier: string) returns (ok: bool)
      requires manager.Valid() && this in manager.modules
      modifies this, manager`moduleEvents, manager`identifiedModuleEvents
      ensures manager.Valid()
      ensures identifier == "" ==>
                && ok && eventCallbacks == old(eventCallbacks)[event := At(old(eventCallbacks), event) + [callback]]
                && manager.moduleEvents == Listed(old(manager.moduleEvents), event, this)
                && onceConnects == old(onceConnects) + [callback]
                && identifiedEventCallbacks == old(identifiedEventCallbacks)
                && manager.identifiedModuleEvents == old(manager.identifiedModuleEvents)
                && identifiedOnceConnects == old(identifiedOnceConnects)
      ensures identifier != "" ==>
                && ok == (identifier !in IdsAt(old(identifiedEventCallbacks), event))
                && identifiedEventCallbacks == (if ok then
                     var ids := IdsAt(old(identifiedEventCallbacks), event);
                     old(identifiedEventCallbacks)[event := ids[identifier := callback]]
                     else old(identifiedEventCallbacks))
                && manager.identifiedModuleEvents
                   == (if ok then Listed(old(manager.identifiedModuleEvents), event, this)
                       else old(manager.identifiedModuleEvents))
                && identifiedOnceConnects == (if ok then
                     old(identifiedOnceConnects)[event := At(old(identifiedOnceConnects), event) + [identifier]]
                     else old(identifiedOnceConnects))
                && eventCallbacks == old(eventCallbacks) && manager.moduleEvents == old(manager.moduleEvents)
                && onceConnects == old(onceConnects)
    {
      hide At, Agrees, DistinctIndex, Within, Listed, Active, ActiveIds;
      ok := Connect(event, callback, identifier);
      if ok {
        if identifier == "" {
          onceConnects := onceConnects + [callback];
        } else {
          identifiedOnceConnects := identifiedOnceConnects[event := At(identifiedOnceConnects, event) + [identifier]];
        }
      }
    }

    /** `disconnect` of a callback, up to `clearList`. The reference is given
        back only with the last callback of the event. */
    method Drop(event: string, callback: int)
      requires manager.Valid() && this in manager.modules
      modifies this`eventCallbacks, manager`moduleEvents, manager`released
      ensures manager.Valid() && eventCallbacks == Dropped(old(eventCallbacks), event, callback)
      ensures var emptied := event in old(eventCallbacks) && event !in eventCallbacks;
              && manager.moduleEvents
                 == (if emptied then Unlisted(old(manager.moduleEvents), event, this) else old(manager.moduleEvents))
              && manager.released
                 == old(manager.released) + if emptied then multiset{Anonymous(event, callback)} else multiset{}
    {
      hide At, Agrees, DistinctIndex, Within, Moved, Unlisted, Active, ActiveIds, Without;
      ActiveDropped(eventCallbacks, event, callback);
      if event in eventCallbacks {
        var callbacks := Without(eventCallbacks[event], callback);
        if callbacks == [] {
          ghost var before := manager.moduleEvents;
          manager.moduleEvents := Unlisted(manager.moduleEvents, event, this);
          UnlistedKeeps(before, event, this);
          MovedKeepsOthers(before, manager.moduleEvents, event, this, false, manager.modules);
          manager.released := manager.released + multiset{Anonymous(event, callback)};
          eventCallbacks := eventCallbacks - {event};
        } else {
          eventCallbacks := eventCallbacks[event := callbacks];
        }
      }
    }

    method Disconnect(event: string, callback: int, clearList: bool)
      requires manager.Valid() && this in manager.modules
      modifies this`eventCallbacks, manager`moduleEvents, manager`released
      ensures manager.Valid() && eventCallbacks == Dropped(old(eventCallbacks), event, callback)
      ensures var emptied := event in old(eventCallbacks) && event !in eventCallbacks;
              var left := if emptied then Unlisted(old(manager.moduleEvents), event, this)
                  else old(manager.moduleEvents);
              && manager.moduleEvents == (if clearList then Cleared(left, event) else left)
              && manager.released
                 == old(manager.released) + if emptied then multiset{Anonymous(event, callback)} else multiset{}
      ensures At(eventCallbacks, event) == Without(At(old(eventCallbacks), event), callback)
      ensures forall e | e != event :: At(eventCallbacks, e) == At(old(eventCallbacks), e)
      ensures this in At(manager.moduleEvents, event) <==> At(eventCallbacks, event) != []
      ensures forall e | e != event :: At(manager.moduleEvents, e) == At(old(manager.moduleEvents), e)
      ensures
        manager.released == old(manager.released)
          + if At(old(eventCallbacks), event) != [] && Without(At(old(eventCallbacks), event), callback) == []
            then multiset{Anonymous(event, callback)} else multiset{}
    {
      hide Agrees, DistinctIndex, Within, Unlisted, Dropped, Cleared, Active, ActiveIds, Without;
      DroppedIs(eventCallbacks, event, callback);
      UnlistedElsewhere(manager.moduleEvents, event, this);
      Drop(event, callback);
      if clearList {
        manager.ClearList(event);
      }
      ListsIfActive(this, event);
    }

    method DropIdentified(event: string, identifier: string)
      requires manager.Valid() && this in manager.modules
      modifies this`identifiedEventCallbacks, manager`identifiedModuleEvents, manager`released
      ensures manager.Valid() && identifiedEventCallbacks == DroppedId(old(identifiedEventCallbacks), event, identifier)
      ensures var own := old(identifiedEventCallbacks);
              var found := identifier in IdsAt(own, event);
              && manager.identifiedModuleEvents
                 == (if found && identifiedEventCallbacks[event] == map[]
                     then Unlisted(old(manager.identifiedModuleEvents), event, this)
                     else old(manager.identifiedModuleEvents))
              && manager.released == old(manager.released)
                 + if found then multiset{Identified(event, identifier, own[event][identifier])} else multiset{}
    {
      hide At, Agrees, DistinctIndex, Within, Moved, Unlisted, Active, ActiveIds;
      ActiveIdsDropped(identifiedEventCallbacks, event, identifier);
      if event in identifiedEventCallbacks && identifier in identifiedEventCallbacks[event] {
        var callback := identifiedEventCallbacks[event][identifier];
        manager.released := manager.released + multiset{Identified(event, identifier, callback)};
        identifiedEventCallbacks := identifiedEventCallbacks[event := identifiedEventCallbacks[event] - {identifier}];
        if identifiedEventCallbacks[event] == map[] {
          ghost var before := manager.identifiedModuleEvents;
          manager.identifiedModuleEvents := Unlisted(manager.identifiedModuleEvents, event, this);
          UnlistedKeeps(before, event, this);
          MovedKeepsOthers(before, manager.identifiedModuleEvents, event, this, false, manager.modules);
        }
      }
    }

    /** `disconnect` of an identifier. */
    method DisconnectIdentified(event: string, identifier: string, clearList: bool)
      requires manager.Valid() && this in manager.modules
      modifies this`identifiedEventCallbacks, manager`identifiedModuleEvents, manager`released
      ensures manager.Valid() && identifiedEventCallbacks == DroppedId(old(identifiedEventCallbacks), event, identifier)
      ensures var own := old(identifiedEventCallbacks);
              var found := identifier in IdsAt(own, event);
              var left := if found && identifiedEventCallbacks[event] == map[]
                  then Unlisted(old(manager.identifiedModuleEvents), event, this)
                          else old(manager.identifiedModuleEvents);
              && manager.identifiedModuleEvents == (if clearList && event in own then Cleared(left, event) else left)
              && manager.released == old(manager.released)
                 + if found then multiset{Identified(event, identifier, own[event][identifier])} else multiset{}
      ensures IdsAt(identifiedEventCallbacks, event) == IdsAt(old(identifiedEventCallbacks), event) - {identifier}
      ensures forall e | e != event :: IdsAt(identifiedEventCallbacks, e) == IdsAt(old(identifiedEventCallbacks), e)
      ensures this in At(manager.identifiedModuleEvents, event) <==> IdsAt(identifiedEventCallbacks, event) != map[]
    {
      hide At, Agrees, DistinctIndex, Within, Unlisted, Cleared, Active, ActiveIds, DroppedId;
      DroppedIdIs(identifiedEventCallbacks, event, identifier);
      ListsIfActive(this, event);
      if event !in identifiedEventCallbacks {
        NoneDropped(identifiedEventCallbacks, event, identifier);
        return;
      }
      DropIdentified(event, identifier);
      if clearList {
        manager.ClearIdentifiedList(event);
      }
      ListsIfActive(this, event);
    }

    /** `checkConnectOnce` of a callback. */
    method CheckOnce(event: string, callback: int)
      requires manager.Valid() && this in manager.modules
      modifies this`eventCallbacks, this`onceConnects, manager`moduleEvents, manager`released
      ensures manager.Valid()
      ensures onceConnects == WithoutFirst(old(onceConnects), callback)
      ensures
        if callback in old(onceConnects) then eventCallbacks == Dropped(old(eventCallbacks), event, callback)
        else
          && eventCallbacks == old(eventCallbacks) && manager.moduleEvents == old(manager.moduleEvents)
          && manager.released == old(manager.released)
    {
      hide At, Agrees, DistinctIndex, Within, Unlisted, Dropped, Cleared, Active, ActiveIds;
      NoFirst(onceConnects, callback);
      if callback in onceConnects {
        onceConnects := WithoutFirst(onceConnects, callback);
        Disconnect(event, callback, true);
      }
    }

    /** `checkConnectOnce` of an identifier. */
    method CheckOnceIdentified(event: string, identifier: string)
      requires manager.Valid() && this in manager.modules
      modifies this`identifiedEventCallbacks, this`identifiedOnceConnects
      modifies manager`identifiedModuleEvents, manager`released
      ensures manager.Valid()
      ensures
        var own, index := old(identifiedEventCallbacks), old(manager.identifiedModuleEvents);
        var found := identifier in IdsAt(own, event);
        if !old(IsOnce(this, event, identifier)) then
          && identifiedEventCallbacks == own && identifiedOnceConnects == old(identifiedOnceConnects)
          && manager.identifiedModuleEvents == index && manager.released == old(manager.released)
        else
          && identifiedOnceConnects
             == old(identifiedOnceConnects)[event := WithoutFirst(At(old(identifiedOnceConnects), event), identifier)]
          && identifiedEventCallbacks == DroppedId(own, event, identifier)
          && (found && identifiedEventCallbacks[event] != map[] ==>
                && manager.identifiedModuleEvents == Cleared(index, event)
                && manager.released
                   == old(manager.released) + multiset{Identified(event, identifier, own[event][identifier])})
    {
      hide Agrees, DistinctIndex, Within, Unlisted, Cleared, Active, ActiveIds;
      if event in identifiedOnceConnects && identifier in identifiedOnceConnects[event] {
        var identifiers := WithoutFirst(identifiedOnceConnects[event], identifier);
        identifiedOnceConnects := identifiedOnceConnects[event := identifiers];
        DisconnectIdentified(event, identifier, true);
      }
    }

    /** The callbacks of one event, disconnected one after another. */
    method FreeEvent(event: string, callbacks: seq<int>)
      requires manager.Valid() && this in manager.modules && event in eventCallbacks
               && callbacks == eventCallbacks[event]
      modifies this`eventCallbacks, manager`moduleEvents, manager`released
      ensures manager.Valid() && eventCallbacks == old(eventCallbacks) - {event}
      ensures Off(old(manager.moduleEvents), manager.moduleEvents, this, {event})
      ensures forall r: Release | r.Identified? :: manager.released[r] == old(manager.released)[r]
    {
      hide At, Agrees, DistinctIndex, Within, Unlisted, Cleared, Without, Active, ActiveIds, Off, OnlyLeft, Dropped;
      ghost var index := manager.moduleEvents;
      OffNone(index, this);
      LeftAtFirst(eventCallbacks, event);
      assert callbacks[0..] == callbacks;
      for k := 0 to |callbacks|
        invariant manager.Valid() && eventCallbacks - {event} == old(eventCallbacks) - {event}
        invariant OnlyLeft(eventCallbacks, event, callbacks[k..])
        invariant Off(index, manager.moduleEvents, this, if event in eventCallbacks then {} else {event})
        invariant forall r: Release | r.Identified? :: manager.released[r] == old(manager.released)[r]
      {
        ghost var own, between := eventCallbacks, manager.moduleEvents;
        DroppedLeaves(own, event, callbacks[k..]);
        Disconnect(event, callbacks[k], true);
        OffStep(index, between, this, event, event in own, event in eventCallbacks);
      }
      NothingLeft(eventCallbacks, event);
    }

    /** The identifiers of one event, disconnected in any order. */
    method FreeIdentifiedEvent(event: string)
      requires manager.Valid() && this in manager.modules && event in identifiedEventCallbacks
      modifies this`identifiedEventCallbacks, manager`identifiedModuleEvents, manager`released
      ensures manager.Valid() && identifiedEventCallbacks == old(identifiedEventCallbacks)[event := map[]]
      ensures Off(old(manager.identifiedModuleEvents), manager.identifiedModuleEvents, this,
                  if old(identifiedEventCallbacks)[event] == map[] then {} else {event})
      ensures manager.released
              == old(manager.released) + Releases(old(identifiedEventCallbacks), event,
                  old(identifiedEventCallbacks)[event].Keys)
    {
      hide At, Agrees, DistinctIndex, Within, Unlisted, Cleared, Without, Active, ActiveIds, Off, Releases;
      ghost var index, own, released := manager.identifiedModuleEvents, identifiedEventCallbacks, manager.released;
      var todo := identifiedEventCallbacks[event].Keys;
      ghost var all, done := todo, {};
      OffNone(index, this);
      NothingReleased(own, event);
      assert own[event] - {} == own[event] && own == own[event := own[event]];
      while todo != {}
        invariant manager.Valid() && todo + done == all && todo !! done
        invariant event in identifiedEventCallbacks && identifiedEventCallbacks == own[event := own[event] - done]
        invariant Off(index, manager.identifiedModuleEvents, this, if todo == {} && all != {} then {event} else {})
        invariant manager.released == released + Releases(own, event, done)
        decreases todo
      {
        var identifier :| identifier in todo;
        ghost var between := manager.identifiedModuleEvents;
        ReleasedStep(own, event, done, identifier);
        DroppedStep(own, event, done, identifier);
        DisconnectIdentified(event, identifier, true);
        todo, done := todo - {identifier}, done + {identifier};
        assert todo == all - done;
        OffIdStep(index, between, this, event, todo == {});
      }
      assert own[event] - done == map[];
    }

    method FreePlain()
      requires manager.Valid() && this in manager.modules
      modifies this`eventCallbacks, manager`moduleEvents, manager`released
      ensures manager.Valid() && eventCallbacks == map[]
      ensures forall e :: At(manager.moduleEvents, e) == Without(At(old(manager.moduleEvents), e), this)
      ensures forall r: Release | r.Identified? :: manager.released[r] == old(manager.released)[r]
    {
      hide At, Agrees, DistinctIndex, Within, Without, Active, ActiveIds, Off;
      ghost var index := manager.moduleEvents;
      var events := eventCallbacks;
      var todo := events.Keys;
      ghost var done := {};
      OffNone(index, this);
      assert events - {} == events;
      ListensTo(this);
      while todo != {}
        invariant manager.Valid() && todo + done == events.Keys && todo !! done
        invariant eventCallbacks == events - done
        invariant Off(index, manager.moduleEvents, this, done)
        invariant forall r: Release | r.Identified? :: manager.released[r] == old(manager.released)[r]
        decreases todo
      {
        var event :| event in todo;
        ghost var between := manager.moduleEvents;
        FreeEvent(event, events[event]);
        OffThen(index, between, manager.moduleEvents, this, done, {event});
        todo, done := todo - {event}, done + {event};
        assert events - (done - {event}) - {event} == events - done;
      }
      assert done == events.Keys && events - done == map[];
      OffAll(index, manager.moduleEvents, this, done);
    }

    method FreeIdentified()
      requires manager.Valid() && this in manager.modules
      modifies this`identifiedEventCallbacks, manager`identifiedModuleEvents, manager`released
      ensures manager.Valid() && forall e | e in identifiedEventCallbacks :: identifiedEventCallbacks[e] == map[]
      ensures forall e ::
                At(manager.identifiedModuleEvents, e) == Without(At(old(manager.identifiedModuleEvents), e), this)
      ensures forall r: Release | r.Identified? ::
                manager.released[r] == old(manager.released)[r]
                  + if Holds(old(identifiedEventCallbacks), r.event, r.identifier, r.callback) then 1 else 0
    {
      hide At, Agrees, DistinctIndex, Within, Without, Active, ActiveIds, Off, Holds, Releases, Returned, Emptied;
      ghost var index, released := manager.identifiedModuleEvents, manager.released;
      var events := identifiedEventCallbacks;
      var todo := events.Keys;
      ghost var done, active := {}, {};
      OffNone(index, this);
      ListensTo(this);
      NothingReturned(events, released);
      NothingEmptied(events);
      while todo != {}
        invariant manager.Valid() && todo + done == events.Keys && todo !! done
        invariant identifiedEventCallbacks == Emptied(events, done)
        invariant active == ActiveIds(events) * done
        invariant Off(index, manager.identifiedModuleEvents, this, active)
        invariant Returned(events, done, released, manager.released)
        decreases todo
      {
        var event :| event in todo;
        ghost var between := manager.identifiedModuleEvents;
        ghost var now := if events[event] == map[] then {} else {event};
        EmptiedStep(events, done, event);
        ReturnedStep(events, identifiedEventCallbacks, done, event, released, manager.released);
        FreeIdentifiedEvent(event);
        OffThen(index, between, manager.identifiedModuleEvents, this, active, now);
        todo, done, active := todo - {event}, done + {event}, active + now;
      }
      AllEmptied(events, done);
      OffAll(index, manager.identifiedModuleEvents, this, active);
      AllReturned(events, released, manager.released);
    }

    method FreeConnections()
      requires manager.Valid() && this in manager.modules
      modifies this`eventCallbacks, this`identifiedEventCallbacks
      modifies manager`moduleEvents, manager`identifiedModuleEvents, manager`released, manager`moduleExports
      ensures manager.Valid() && eventCallbacks == map[]
      ensures forall e | e in identifiedEventCallbacks :: identifiedEventCallbacks[e] == map[]
      ensures forall e :: At(manager.moduleEvents, e) == Without(At(old(manager.moduleEvents), e), this)
      ensures forall e ::
                At(manager.identifiedModuleEvents, e) == Without(At(old(manager.identifiedModuleEvents), e), this)
      ensures forall r: Release | r.Identified? ::
                manager.released[r] == old(manager.released)[r]
                  + if Holds(old(identifiedEventCallbacks), r.event, r.identifier, r.callback) then 1 else 0
      ensures manager.moduleExports
              == var exports := old(manager.moduleExports); if this in exports then exports[this := map[]] else exports
    {
      hide At, Agrees, DistinctIndex, Within, Without, Active, ActiveIds, Holds;
      FreePlain();
      FreeIdentified();
      if this in manager.moduleExports {
        manager.moduleExports := manager.moduleExports[this := map[]];
      }
    }
  }

  lemma NoneDropped(own: map<string, map<string, int>>, event: string, identifier: string)
    requires event !in own
    ensures DroppedId(own, event, identifier) == own && identifier !in IdsAt(own, event)
  {
  }

  lemma UnlistedElsewhere(index: map<string, seq<Module>>, event: string, m: Module)
    ensures forall e | e != event :: At(Unlisted(index, event, m), e) == At(index, e)
  {
  }

  lemma ListsIfActive(m: Module, event: string)
    requires m.manager.Valid() && m in m.manager.modules
    ensures m in At(m.manager.moduleEvents, event) <==> At(m.eventCallbacks, event) != []
    ensures m in At(m.manager.identifiedModuleEvents, event) <==> IdsAt(m.identifiedEventCallbacks, event) != map[]
  {
    assert m.Valid();
    assert m in At(m.manager.moduleEvents, event) <==> event in Active(m.eventCallbacks);
    assert m in At(m.manager.identifiedModuleEvents, event) <==> event in ActiveIds(m.identifiedEventCallbacks);
  }

  /** What `Valid` says of one module. */
  lemma ListensTo(m: Module)
    requires m.manager.Valid() && m in m.manager.modules
    ensures Agrees(m.manager.moduleEvents, m, m.eventCallbacks.Keys)
    ensures Agrees(m.manager.identifiedModuleEvents, m, ActiveIds(m.identifiedEventCallbacks))
  {
    hide Agrees;
  }

  /** `own` without the callbacks of some events, whose empty tables stay. */
  function Emptied(own: map<string, map<string, int>>, done: set<string>): map<string, map<string, int>> {
    map e | e in own :: if e in done then map[] else own[e]
  }

  lemma NothingEmptied(own: map<string, map<string, int>>)
    ensures Emptied(own, {}) == own
  {
  }

  lemma EmptiedStep(own: map<string, map<string, int>>, done: set<string>, event: string)
    requires event in own && event !in done
    ensures var now := Emptied(own, done);
            && event in now && now[event] == own[event] && now[event := map[]] == Emptied(own, done + {event})
            && ActiveIds(own) * (done + {event}) == ActiveIds(own) * done + if own[event] == map[] then {} else {event}
  {
  }

  lemma AllEmptied(own: map<string, map<string, int>>, done: set<string>)
    requires done == own.Keys
    ensures (forall e | e in Emptied(own, done) :: Emptied(own, done)[e] == map[])
            && ActiveIds(own) * done == ActiveIds(own)
  {
  }

  /** The references that `own` has for the events `done` were given back, each
      once, and no other reference of an identified callback. */
  ghost predicate Returned(own: map<string, map<string, int>>, done: set<string>, was: multiset<Release>,
      now: multiset<Release>) {
    forall r: Release | r.Identified? ::
      now[r] == was[r] + if r.event in done && Holds(own, r.event, r.identifier, r.callback) then 1 else 0
  }

  lemma NothingReturned(own: map<string, map<string, int>>, was: multiset<Release>)
    ensures Returned(own, {}, was, was)
  {
  }

  lemma ReturnedStep(own: map<string, map<string, int>>, own': map<string, map<string, int>>, done: set<string>,
                     event: string, was: multiset<Release>, now: multiset<Release>)
    requires Returned(own, done, was, now) && event !in done && event in own && event in own'
             && own'[event] == own[event]
    ensures Returned(own, done + {event}, was, now + Releases(own', event, own'[event].Keys))
  {
    hide Releases, Holds;
    forall r: Release | r.Identified?
      ensures Releases(own', event, own'[event].Keys)[r]
              == if r.event == event && Holds(own, event, r.identifier, r.callback) then 1 else 0
    {
      ReleasesCount(own', event, r);
      SameHolds(own, own', event, r.identifier, r.callback);
    }
  }

  lemma SameHolds(own: map<string, map<string, int>>, own': map<string, map<string, int>>, event: string,
      identifier: string, callback: int)
    requires event in own && event in own' && own'[event] == own[event]
    ensures Holds(own, event, identifier, callback) == Holds(own', event, identifier, callback)
  {
  }

  lemma AllReturned(own: map<string, map<string, int>>, was: multiset<Release>, now: multiset<Release>)
    requires Returned(own, own.Keys, was, now)
    ensures forall r: Release | r.Identified? ::
              now[r] == was[r] + if Holds(own, r.event, r.identifier, r.callback) then 1 else 0
  {
  }

  /** The references of some identifiers of an event, each once. */
  function Releases(own: map<string, map<string, int>>, event: string, ids: set<string>): multiset<Release> {
    multiset(set i | i in ids && i in IdsAt(own, event) :: Identified(event, i, own[event][i]))
  }

  lemma NothingReleased(own: map<string, map<string, int>>, event: string)
    ensures Releases(own, event, {}) == multiset{}
  {
  }

  lemma ReleasedStep(own: map<string, map<string, int>>, event: string, ids: set<string>, i: string)
    requires i !in ids && i in IdsAt(own, event)
    ensures Releases(own, event, ids + {i}) == Releases(own, event, ids) + multiset{Identified(event, i, own[event][i])}
  {
    var before := set j | j in ids && j in IdsAt(own, event) :: Identified(event, j, own[event][j]);
    var after := set j | j in ids + {i} && j in IdsAt(own, event) :: Identified(event, j, own[event][j]);
    assert after == before + {Identified(event, i, own[event][i])};
  }

  lemma DroppedStep(own: map<string, map<string, int>>, event: string, ids: set<string>, i: string)
    requires event in own && i in own[event] && i !in ids
    ensures var now := own[event := own[event] - ids];
            && i in IdsAt(now, event) && now[event][i] == own[event][i]
            && DroppedId(now, event, i) == own[event := own[event] - (ids + {i})]
            && (own[event] - (ids + {i}) == map[] <==> own[event].Keys - (ids + {i}) == {})
  {
    assert own[event] - ids - {i} == own[event] - (ids + {i});
    assert (own[event] - (ids + {i})).Keys == own[event].Keys - (ids + {i});
  }

  lemma ReleasesCount(own: map<string, map<string, int>>, event: string, r: Release)
    requires r.Identified? && event in own
    ensures Releases(own, event, own[event].Keys)[r]
            == if r.event == event && Holds(own, r.event, r.identifier, r.callback) then 1 else 0
  {
  }

  lemma SameLists(index: map<string, seq<Module>>, r: map<string, seq<Module>>, all: set<Module>)
    requires forall e :: At(r, e) == At(index, e)
    ensures DistinctIndex(index) ==> DistinctIndex(r)
    ensures Within(index, all) ==> Within(r, all)
    ensures forall m, active :: Agrees(index, m, active) ==> Agrees(r, m, active)
  {
    hide At, Distinct;
  }

  lemma MovedKeepsOthers(index: map<string, seq<Module>>, r: map<string, seq<Module>>, event: string, m: Module,
      isIn: bool, all: set<Module>)
    requires Moved(index, r, event, m, isIn) && Within(index, all) && m in all
    ensures Within(r, all)
    ensures forall o, active :: o != m && Agrees(index, o, active) ==> Agrees(r, o, active)
    ensures forall active :: Agrees(index, m, active) ==>
            Agrees(r, m, if isIn then active + {event} else active - {event})
  {
    hide Within, Agrees, Moved;
    MovedWithin(index, r, event, m, isIn, all);
    forall o, active | o != m && Agrees(index, o, active) ensures Agrees(r, o, active) {
      MovedKeepsOther(index, r, event, m, isIn, o, active);
    }
    forall active | Agrees(index, m, active) ensures Agrees(r, m, if isIn then active + {event} else active - {event}) {
      MovedAgrees(index, r, event, m, isIn, active);
    }
  }

  /** The callbacks that a module gets to run, in order. */
  function RunBy(calls: seq<Call>, m: Module): seq<int> {
    if calls == [] then [] else (if calls[0].owner == m then [calls[0].callback] else []) + RunBy(calls[1..], m)
  }

  lemma NoneRunBy(m: Module)
    ensures RunBy([], m) == []
  {
  }

  lemma RunByFirst(c: Call, rest: seq<Call>, m: Module)
    ensures RunBy([c] + rest, m) == (if c.owner == m then [c.callback] else []) + RunBy(rest, m)
  {
  }

  lemma {:induction false} RunByJoined(a: seq<Call>, b: seq<Call>, m: Module)
    ensures RunBy(a + b, m) == RunBy(a, m) + RunBy(b, m)
  {
    hide RunBy;
    if a == [] {
      NoneRunBy(m);
      assert a + b == b;
    } else {
      assert a + b == [a[0]] + (a[1..] + b) && a == [a[0]] + a[1..];
      RunByFirst(a[0], a[1..], m);
      RunByFirst(a[0], a[1..] + b, m);
      RunByJoined(a[1..], b, m);
    }
  }

  lemma {:induction false} RunByOwner(m: Module, callbacks: seq<int>, o: Module)
    ensures RunBy(CallsOf(m, callbacks), o) == if o == m then callbacks else []
  {
    if callbacks != [] {
      assert CallsOf(m, callbacks)[1..] == CallsOf(m, callbacks[1..]);
      RunByOwner(m, callbacks[1..], o);
    }
  }

  lemma {:induction false} PlainRunBy(list: seq<Module>, event: string, m: Module)
    requires Distinct(list)
    ensures RunBy(PlainCalls(list, event), m) == if m in list then At(m.eventCallbacks, event) else []
  {
    if list != [] {
      DistinctRest(list);
      PlainRunBy(list[1..], event, m);
      RunByOwner(list[0], At(list[0].eventCallbacks, event), m);
      RunByJoined(CallsOf(list[0], At(list[0].eventCallbacks, event)), PlainCalls(list[1..], event), m);
    }
  }

  lemma DistinctRest(list: seq<Module>)
    requires Distinct(list) && list != []
    ensures Distinct(list[1..]) && list[0] !in list[1..]
    ensures forall m | m in list :: m == list[0] || m in list[1..]
  {
    assert list == [list[0]] + list[1..];
  }

  lemma {:induction false} MatchesRunBy(list: seq<Module>, event: string, identifier: string, m: Module)
    requires Distinct(list)
    ensures var ids := IdsAt(m.identifiedEventCallbacks, event);
            RunBy(Matches(list, event, identifier), m)
            == if m in list && identifier in ids then [ids[identifier]] else []
  {
    if list != [] {
      DistinctRest(list);
      var ids := IdsAt(list[0].identifiedEventCallbacks, event);
      var first := if identifier in ids then [Call(list[0], ids[identifier])] else [];
      MatchesRunBy(list[1..], event, identifier, m);
      RunByJoined(first, Matches(list[1..], event, identifier), m);
    }
  }

  /** Going through the index is going through all modules: each has all its
      callbacks for the event run, in the order in which they were connected. */
  lemma PlainIsFullScan(manager: ModuleManager, event: string, m: Module)
    requires manager.Valid() && m in manager.modules
    ensures RunBy(PlainCalls(At(manager.moduleEvents, event), event), m) == At(m.eventCallbacks, event)
  {
    hide RunBy, PlainCalls, Distinct;
    assert Distinct(At(manager.moduleEvents, event));
    PlainRunBy(At(manager.moduleEvents, event), event, m);
    assert m.Valid();
    assert m in At(manager.moduleEvents, event) <==> event in Active(m.eventCallbacks);
  }

  lemma MatchesAreFullScan(manager: ModuleManager, event: string, identifier: string, m: Module)
    requires manager.Valid() && m in manager.modules
    ensures var ids := IdsAt(m.identifiedEventCallbacks, event);
            RunBy(Matches(At(manager.identifiedModuleEvents, event), event, identifier), m)
            == if identifier in ids then [ids[identifier]] else []
  {
    hide RunBy, Matches, Distinct;
    assert Distinct(At(manager.identifiedModuleEvents, event));
    MatchesRunBy(At(manager.identifiedModuleEvents, event), event, identifier, m);
    assert m.Valid();
    assert m in At(manager.identifiedModuleEvents, event) <==> event in ActiveIds(m.identifiedEventCallbacks);
    assert identifier in IdsAt(m.identifiedEventCallbacks, event) ==> m.identifiedEventCallbacks[event] != map[];
  }

  lemma {:induction false} SkippingShrinks(calls: seq<Call>, last: int)
    ensures |Skipping(calls, last)| <= |calls|
  {
    if calls != [] {
      SkippingShrinks(calls[1..], if calls[0].callback == last then last else calls[0].callback);
    }
  }

  /** The test `!= callback` drops nothing if and only if no reference is that
      of the module before it and the first is not 0. */
  lemma {:induction false} SkipsNothing(calls: seq<Call>, last: int)
    ensures Skipping(calls, last) == calls
            <==> (calls != [] ==> calls[0].callback != last)
                 && forall i | 0 < i < |calls| :: calls[i].callback != calls[i - 1].callback
  {
    if calls != [] {
      if calls[0].callback == last {
        SkippingShrinks(calls[1..], last);
      } else {
        SkipsNothing(calls[1..], calls[0].callback);
        assert forall i | 0 < i < |calls| :: calls[i] == calls[1..][i - 1];
      }
    }
  }

  /** The reference of a module for an event and an identifier, or 0. */
  function RefOf(m: Module, event: string, identifier: string): int
    reads m
  {
    var ids := IdsAt(m.identifiedEventCallbacks, event);
    if identifier in ids then ids[identifier] else 0
  }

  predicate IsMatch(c: Call, event: string, identifier: string)
    reads c.owner
  {
    c.callback == RefOf(c.owner, event, identifier) && identifier in IdsAt(c.owner.identifiedEventCallbacks, event)
  }

  lemma {:induction false} MatchAt(list: seq<Module>, event: string, identifier: string, i: nat)
    requires Distinct(list) && i < |Matches(list, event, identifier)|
    ensures var calls := Matches(list, event, identifier);
            IsMatch(calls[i], event, identifier) && calls[i].owner in list
                && (i > 0 ==> calls[i].owner != calls[i - 1].owner)
  {
    hide Distinct;
    DistinctRest(list);
    var calls, rest := Matches(list, event, identifier), Matches(list[1..], event, identifier);
    if identifier in IdsAt(list[0].identifiedEventCallbacks, event) {
      assert calls == [Call(list[0], RefOf(list[0], event, identifier))] + rest;
      if i > 0 {
        MatchAt(list[1..], event, identifier, i - 1);
        assert calls[i] == rest[i - 1];
      }
    } else {
      assert calls == rest;
      MatchAt(list[1..], event, identifier, i);
    }
  }

  /** With a reference of its own for each module, and none of them 0, each
      module that has the identifier is invoked exactly once. */
  lemma DistinctRefsDeliver(manager: ModuleManager, event: string, identifier: string, m: Module)
    requires manager.Valid() && m in manager.modules
    requires forall a | a in manager.modules && identifier in IdsAt(a.identifiedEventCallbacks, event) ::
               RefOf(a, event, identifier) != 0
    requires forall a, b | && a in manager.modules && b in manager.modules && a != b
                           && identifier in IdsAt(a.identifiedEventCallbacks, event) ::
               RefOf(a, event, identifier) != RefOf(b, event, identifier)
    ensures var ids := IdsAt(m.identifiedEventCallbacks, event);
            RunBy(Skipping(Matches(At(manager.identifiedModuleEvents, event), event, identifier), 0), m)
            == if identifier in ids then [ids[identifier]] else []
  {
    hide RunBy, Matches, Distinct, Skipping, IdsAt, RefOf;
    var list := At(manager.identifiedModuleEvents, event);
    assert Distinct(list);
    assert forall i | 0 <= i < |list| :: list[i] in manager.modules;
    var calls := Matches(list, event, identifier);
    if calls != [] {
      MatchAt(list, event, identifier, 0);
    }
    forall i | 0 < i < |calls| ensures calls[i].callback != calls[i - 1].callback {
      MatchAt(list, event, identifier, i - 1);
      MatchAt(list, event, identifier, i);
    }
    SkipsNothing(calls, 0);
    MatchesAreFullScan(manager, event, identifier, m);
  }

  /** Two modules that listen to an event under the same identifier, with the
      same reference. */
  method SameReference(event: string, identifier: string, callback: int)
      returns (manager: ModuleManager, first: Module, second: Module)
    requires identifier != ""
    ensures fresh(manager) && manager.Valid() && manager.modules == {first, second} && first != second
    ensures manager.identifiedModuleEvents == map[event := [first, second]]
    ensures first.identifiedEventCallbacks == second.identifiedEventCallbacks
            == map[event := map[identifier := callback]]
    ensures first.identifiedOnceConnects == second.identifiedOnceConnects == map[]
  {
    hide Agrees, DistinctIndex, Within, Active, ActiveIds;
    manager := new ModuleManager();
    first := new Module(manager);
    second := new Module(manager);
    assert [] + [first] == [first];
    var ok := first.Connect(event, callback, identifier);
    assert manager.identifiedModuleEvents == map[event := [first]] && second.identifiedEventCallbacks == map[];
    ok := second.Connect(event, callback, identifier);
    assert manager.identifiedModuleEvents == map[event := [first] + [second]];
    assert second.identifiedEventCallbacks == map[event := map[identifier := callback]];
    assert first.identifiedEventCallbacks == map[event := map[identifier := callback]];
    assert [first] + [second] == [first, second];
  }

  /** An invocation that is lost: only the first of the two is invoked, or, with
      the reference 0, neither. */
  method LostInvocation(event: string, identifier: string, callback: int)
      returns (manager: ModuleManager, first: Module, second: Module, calls: seq<Call>)
    requires identifier != ""
    ensures manager.Valid() && manager.modules == {first, second} && first != second
    ensures first.identifiedEventCallbacks == second.identifiedEventCallbacks
            == map[event := map[identifier := callback]]
    ensures calls == (if callback == 0 then [] else [Call(first, callback)]) && RunBy(calls, second) == []
  {
    hide Matches, Skipping, RunBy, Harmless, GivenBack;
    manager, first, second := SameReference(event, identifier, callback);
    assert At(manager.identifiedModuleEvents, event) == [first, second];
    NoneOnce([first, second], event, identifier, 0);
    calls := manager.Emit(event, identifier);
    TwoMatches(first, second, event, identifier);
  }

  lemma TwoMatches(first: Module, second: Module, event: string, identifier: string)
    requires first != second
    requires identifier in IdsAt(first.identifiedEventCallbacks, event)
             && identifier in IdsAt(second.identifiedEventCallbacks, event)
    requires RefOf(first, event, identifier) == RefOf(second, event, identifier)
    ensures var ref := RefOf(first, event, identifier);
            var calls := Skipping(Matches([first, second], event, identifier), 0);
            calls == (if ref == 0 then [] else [Call(first, ref)]) && RunBy(calls, second) == []
  {
    var ref, list := RefOf(first, event, identifier), [first, second];
    MatchesStep(list, 0, event, identifier, 0);
    MatchesStep(list, 1, event, identifier, 0);
    MatchesStep(list, 1, event, identifier, ref);
    NoMatches(event, identifier, 0);
    NoMatches(event, identifier, ref);
    assert list[0..] == list && list[2..] == [];
    NoneRunBy(second);
    RunByFirst(Call(first, ref), [], second);
  }

  /** The calls go through the listed modules in their order. */
  lemma {:induction false} PlainInOrder(list: seq<Module>, more: seq<Module>, event: string)
    ensures PlainCalls(list + more, event) == PlainCalls(list, event) + PlainCalls(more, event)
    ensures |list| == 1 ==> PlainCalls(list, event) == CallsOf(list[0], At(list[0].eventCallbacks, event))
  {
    hide CallsOf;
    if list == [] {
      assert list + more == more;
    } else {
      assert (list + more)[1..] == list[1..] + more;
      PlainInOrder(list[1..], more, event);
    }
  }

  lemma {:induction false} MatchesInOrder(list: seq<Module>, more: seq<Module>, event: string, identifier: string)
    ensures Matches(list + more, event, identifier) ==
            Matches(list, event, identifier) + Matches(more, event, identifier)
  {
    if list == [] {
      assert list + more == more;
    } else {
      assert (list + more)[1..] == list[1..] + more;
      MatchesInOrder(list[1..], more, event, identifier);
    }
  }

  /** Exactly which invocations the test `!= callback` drops: those whose reference
      is that of the module before, called or not, and a first one of `last`. */
  lemma {:induction false} SkipsExactly(calls: seq<Call>, c: Call, last: int)
    ensures Skipping(calls + [c], last)
            == Skipping(calls, last)
               + if c.callback == (if calls == [] then last else calls[|calls| - 1].callback) then [] else [c]
  {
    if calls == [] {
      assert [] + [c] == [c] && [c][1..] == [];
    } else {
      assert (calls + [c])[0] == calls[0] && (calls + [c])[1..] == calls[1..] + [c];
      SkipsExactly(calls[1..], c, calls[0].callback);
    }
  }

  /** A disconnected callback is gone from the next emission; everything else is
      invoked as before, for every module. */
  method DisconnectThenEmit(m: Module, event: string, callback: int) returns (before: seq<Call>, after: seq<Call>)
    requires m.manager.Valid() && m in m.manager.modules
    modifies m`eventCallbacks, m.manager`moduleEvents, m.manager`released
    ensures m.manager.Valid()
    ensures RunBy(after, m) == Without(RunBy(before, m), callback)
    ensures forall o | o in m.manager.modules && o != m :: RunBy(after, o) == RunBy(before, o)
    ensures forall o | o in m.manager.modules :: RunBy(before, o) == At(old(o.eventCallbacks), event)
  {
    hide RunBy, PlainCalls, Without, Dropped, Cleared, Unlisted, ModuleManager.Valid;
    before := m.manager.EmitPlain(event);
    RunsItsOwn(m.manager, event);
    m.Disconnect(event, callback, true);
    after := m.manager.EmitPlain(event);
    RunsItsOwn(m.manager, event);
  }

  /** A newly connected callback is invoked last of its module's. */
  method ConnectThenEmit(m: Module, event: string, callback: int) returns (before: seq<Call>, after: seq<Call>)
    requires m.manager.Valid() && m in m.manager.modules
    modifies m`eventCallbacks, m`identifiedEventCallbacks, m.manager`moduleEvents, m.manager`identifiedModuleEvents
    ensures m.manager.Valid()
    ensures RunBy(after, m) == RunBy(before, m) + [callback]
    ensures forall o | o in m.manager.modules && o != m :: RunBy(after, o) == RunBy(before, o)
  {
    hide RunBy, PlainCalls, Listed, ModuleManager.Valid;
    before := m.manager.EmitPlain(event);
    RunsItsOwn(m.manager, event);
    var ok := m.Connect(event, callback, "");
    after := m.manager.EmitPlain(event);
    RunsItsOwn(m.manager, event);
  }

  /** A module that was freed is invoked no more, and the others are as before. */
  method FreeThenEmit(m: Module, event: string) returns (before: seq<Call>, after: seq<Call>)
    requires m.manager.Valid() && m in m.manager.modules
    modifies m`eventCallbacks, m`identifiedEventCallbacks
    modifies m.manager`moduleEvents, m.manager`identifiedModuleEvents, m.manager`released, m.manager`moduleExports
    ensures m.manager.Valid()
    ensures RunBy(after, m) == []
    ensures forall o | o in m.manager.modules && o != m :: RunBy(after, o) == RunBy(before, o)
  {
    hide RunBy, PlainCalls, Without, ModuleManager.Valid;
    before := m.manager.EmitPlain(event);
    RunsItsOwn(m.manager, event);
    m.FreeConnections();
    after := m.manager.EmitPlain(event);
    RunsItsOwn(m.manager, event);
  }

  lemma RunsItsOwn(manager: ModuleManager, event: string)
    requires manager.Valid()
    ensures forall m | m in manager.modules ::
              RunBy(PlainCalls(At(manager.moduleEvents, event), event), m) == At(m.eventCallbacks, event)
  {
    hide RunBy, PlainCalls, At;
    forall m | m in manager.modules
      ensures RunBy(PlainCalls(At(manager.moduleEvents, event), event), m) == At(m.eventCallbacks, event)
    {
      PlainIsFullScan(manager, event, m);
    }
  }

  /** A module without the identifier, or off the list, runs nothing. */
  lemma {:induction false} NotMatchedNotRun(list: seq<Module>, event: string, identifier: string, m: Module, last: int)
    requires m !in list || identifier !in IdsAt(m.identifiedEventCallbacks, event)
    ensures RunBy(Skipping(Matches(list, event, identifier), last), m) == []
  {
    hide RunBy, Skipping, Matches, IdsAt;
    if list == [] {
      NoMatches(event, identifier, last);
      NoneRunBy(m);
    } else {
      MatchesStep(list, 0, event, identifier, last);
      assert list[0..] == list;
      var ids := IdsAt(list[0].identifiedEventCallbacks, event);
      NotMatchedNotRun(list[1..], event, identifier, m, last);
      if identifier in ids && ids[identifier] != last {
        NotMatchedNotRun(list[1..], event, identifier, m, ids[identifier]);
        RunByFirst(Call(list[0], ids[identifier]),
            Skipping(Matches(list[1..], event, identifier), ids[identifier]), m);
      }
    }
  }

  lemma {:induction false} NoneOnceReleases(list: seq<Module>, event: string, identifier: string, last: int)
    requires forall i | 0 <= i < |list| :: !IsOnce(list[i], event, identifier)
    ensures GivenBack(list, event, identifier, last) == multiset{}
  {
    if list != [] {
      NoneOnceReleases(list[1..], event, identifier, last);
      var ids := IdsAt(list[0].identifiedEventCallbacks, event);
      if identifier in ids {
        NoneOnceReleases(list[1..], event, identifier, ids[identifier]);
      }
    }
  }

  /** A module whose reference no other has is invoked once, and if it alone was
      to be disconnected then, its reference alone is given back. */
  lemma {:induction false} OwnRefDelivers(list: seq<Module>, event: string, identifier: string, m: Module, last: int)
    requires Distinct(list) && m in list && identifier in IdsAt(m.identifiedEventCallbacks, event)
    requires RefOf(m, event, identifier) != last
    requires forall o | o in list && o != m && identifier in IdsAt(o.identifiedEventCallbacks, event) ::
               RefOf(o, event, identifier) != RefOf(m, event, identifier)
    requires forall o | o in list :: IsOnce(o, event, identifier) <==> o == m
    ensures RunBy(Skipping(Matches(list, event, identifier), last), m) == [RefOf(m, event, identifier)]
    ensures GivenBack(list, event, identifier, last)
            == multiset{Identified(event, identifier, RefOf(m, event, identifier))}
  {
    hide RunBy, Skipping, Matches, GivenBack, IsOnce, Distinct, IdsAt;
    DistinctRest(list);
    MatchesStep(list, 0, event, identifier, last);
    GivenBackStep(list, 0, event, identifier, last);
    assert list[0..] == list;
    var ids := IdsAt(list[0].identifiedEventCallbacks, event);
    if list[0] == m {
      NotMatchedNotRun(list[1..], event, identifier, m, ids[identifier]);
      RunByFirst(Call(m, ids[identifier]), Skipping(Matches(list[1..], event, identifier), ids[identifier]), m);
      assert forall i | 0 <= i < |list[1..]| :: list[1..][i] in list[1..];
      NoneOnceReleases(list[1..], event, identifier, ids[identifier]);
    } else if identifier in ids && ids[identifier] != last {
      OwnRefDelivers(list[1..], event, identifier, m, ids[identifier]);
      RunByFirst(Call(list[0], ids[identifier]),
          Skipping(Matches(list[1..], event, identifier), ids[identifier]), m);
    } else {
      OwnRefDelivers(list[1..], event, identifier, m, last);
    }
  }

  lemma {:induction false} RunInvoked(calls: seq<Call>, m: Module)
    requires RunBy(calls, m) != []
    ensures Invoked(calls, m)
  {
    if calls[0].owner != m {
      RunInvoked(calls[1..], m);
      var i :| 0 <= i < |calls[1..]| && calls[1..][i].owner == m;
      assert calls[i + 1].owner == m;
    }
  }

  /** Of all modules, `m` alone is to be disconnected from the identifier after
      its invocation, has another identifier for the event, and has a reference
      that no other has. */
  ghost predicate AloneOnce(manager: ModuleManager, m: Module, event: string, identifier: string)
    reads manager, manager.modules, m
  {
    && m in manager.modules && identifier in IdsAt(m.identifiedEventCallbacks, event)
    && |IdsAt(m.identifiedEventCallbacks, event)| > 1 && RefOf(m, event, identifier) != 0
    && (forall o | o in manager.modules :: IsOnce(o, event, identifier) <==> o == m)
    && forall o | o in manager.modules && o != m && identifier in IdsAt(o.identifiedEventCallbacks, event) ::
         RefOf(o, event, identifier) != RefOf(m, event, identifier)
  }

  lemma AloneDelivers(manager: ModuleManager, m: Module, event: string, identifier: string)
    requires manager.Valid() && AloneOnce(manager, m, event, identifier)
    ensures var list := At(manager.identifiedModuleEvents, event);
            var calls := Skipping(Matches(list, event, identifier), 0);
            && Harmless(list, event, identifier, 0)
            && RunBy(calls, m) == [RefOf(m, event, identifier)] && Invoked(calls, m)
            && GivenBack(list, event, identifier, 0)
               == multiset{Identified(event, identifier, RefOf(m, event, identifier))}
  {
    hide RunBy, Skipping, Matches, GivenBack, Harmless, IsOnce, RefOf, Distinct, Agrees;
    var list := At(manager.identifiedModuleEvents, event);
    assert Distinct(list);
    assert forall i | 0 <= i < |list| :: list[i] in manager.modules;
    ListsIfActive(m, event);
    assert m in list;
    SafeOnce(list, event, identifier, 0);
    OwnRefDelivers(list, event, identifier, m, 0);
    RunInvoked(Skipping(Matches(list, event, identifier), 0), m);
  }

  lemma GoneRunsNothing(manager: ModuleManager, m: Module, event: string, identifier: string)
    requires manager.Valid() && identifier !in IdsAt(m.identifiedEventCallbacks, event)
    requires forall o | o in manager.modules :: !IsOnce(o, event, identifier)
    ensures var list := At(manager.identifiedModuleEvents, event);
            && Harmless(list, event, identifier, 0)
            && RunBy(Skipping(Matches(list, event, identifier), 0), m) == []
            && GivenBack(list, event, identifier, 0) == multiset{}
  {
    hide RunBy, Skipping, Matches, GivenBack, Harmless, IsOnce, Distinct, Agrees;
    var list := At(manager.identifiedModuleEvents, event);
    assert forall i | 0 <= i < |list| :: list[i] in manager.modules;
    NoneOnce(list, event, identifier, 0);
    NotMatchedNotRun(list, event, identifier, m, 0);
    NoneOnceReleases(list, event, identifier, 0);
  }

  lemma {:induction false} ForgottenFirst(xs: seq<string>, x: string)
    requires x !in xs
    ensures WithoutFirst(xs + [x], x) == xs
  {
    WithoutFirstIs(xs, x, []);
    assert xs + [x] + [] == xs + [x] && xs + [] == xs;
  }

  /** The emission that runs it. */
  method EmitOnce(manager: ModuleManager, m: Module, event: string, identifier: string, ghost others: seq<string>)
      returns (calls: seq<Call>)
    requires manager.Valid() && AloneOnce(manager, m, event, identifier) && identifier != ""
    requires At(m.identifiedOnceConnects, event) == others + [identifier] && identifier !in others
    modifies manager`identifiedModuleEvents, manager`released
    modifies manager.modules`identifiedEventCallbacks, manager.modules`identifiedOnceConnects
    ensures manager.Valid() && manager.modules == old(manager.modules)
    ensures RunBy(calls, m) == [old(RefOf(m, event, identifier))]
    ensures IdsAt(m.identifiedEventCallbacks, event) == old(IdsAt(m.identifiedEventCallbacks, event)) - {identifier}
    ensures forall o | o in manager.modules :: !IsOnce(o, event, identifier)
    ensures manager.released
            == old(manager.released) + multiset{Identified(event, identifier, old(RefOf(m, event, identifier)))}
  {
    hide RunBy, Skipping, Matches, GivenBack, Harmless, Agrees, DistinctIndex, Within, Active, ActiveIds, Invoked,
        WithoutFirst, DroppedId, ModuleManager.Valid;
    AloneDelivers(manager, m, event, identifier);
    calls := manager.Emit(event, identifier);
    ForgottenFirst(others, identifier);
    DroppedIdIs(old(m.identifiedEventCallbacks), event, identifier);
  }

  /** Once means once: what `connectOnce` has connected, with a reference of its
      own, is run by the next emission and by none after that, and its reference
      is given back once. The module has another identifier for the event, so
      that C++ defines the loop. */
  method ConnectOnceThenEmit(m: Module, event: string, callback: int, identifier: string)
      returns (first: seq<Call>, second: seq<Call>)
    requires m.manager.Valid() && m in m.manager.modules && identifier != ""
    requires identifier !in IdsAt(m.identifiedEventCallbacks, event)
    requires IdsAt(m.identifiedEventCallbacks, event) != map[]
    requires forall o | o in m.manager.modules :: !IsOnce(o, event, identifier)
    requires callback != 0 && forall o | o in m.manager.modules :: RefOf(o, event, identifier) != callback
    modifies m.manager.modules, m.manager
    ensures m.manager.Valid()
    ensures RunBy(first, m) == [callback] && RunBy(second, m) == []
    ensures IdsAt(m.identifiedEventCallbacks, event) == old(IdsAt(m.identifiedEventCallbacks, event))
    ensures m.manager.released == old(m.manager.released) + multiset{Identified(event, identifier, callback)}
  {
    hide RunBy, Skipping, Matches, GivenBack, Listed, Harmless, Agrees, DistinctIndex, Within, Active, ActiveIds,
        ModuleManager.Valid, Invoked;
    ghost var ids, others := IdsAt(m.identifiedEventCallbacks, event), At(m.identifiedOnceConnects, event);
    var ok := m.ConnectOnce(event, callback, identifier);
    MoreThanOne(ids, identifier, callback);
    assert AloneOnce(m.manager, m, event, identifier);
    first := EmitOnce(m.manager, m, event, identifier, others);
    assert ids[identifier := callback] - {identifier} == ids;
    GoneRunsNothing(m.manager, m, event, identifier);
    second := m.manager.Emit(event, identifier);
  }

  lemma MoreThanOne(ids: map<string, int>, identifier: string, callback: int)
    requires ids != map[] && identifier !in ids
    ensures |ids[identifier := callback]| > 1
  {
    var other :| other in ids;
    assert {other, identifier} <= ids[identifier := callback].Keys;
    assert |{other, identifier}| == 2;
    var rest := ids[identifier := callback].Keys - {other, identifier};
    assert ids[identifier := callback].Keys == rest + {other, identifier};
    assert |ids[identifier := callback].Keys| == |ids[identifier := callback]|;
  }
}
