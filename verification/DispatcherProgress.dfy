/** How long the dispatcher takes: in any interleaving with clients that may go
    on calling, a bounded number of its own steps takes what is in the list, and
    a bounded number ends it once it is shut down. */
module DispatcherProgress {
  import opened DispatcherRuns
  import opened Tasks

  /** The steps of the threads that are already at work: no new call, no
      spurious wakeup, no `stop`. */
  predicate Internal(step: Step) {
    step.Dispatch? || step.Proceed?
  }

  /** No deadlock: a thread that is at work can go on, unless the dispatcher
      has ended or waits with nothing in the list. */
  lemma SomeoneCanProceed(s: State) returns (step: Step)
    requires Locked(s) && NoneLost(s) && !s.pc.Ended? && (s.pc == Waiting(false) ==> s.list != [])
    ensures Internal(step) && Enabled(s, step)
  {
    if s.pc == Waiting(false) {
      var c :| 0 <= c < |s.clients| && Owes(s.clients[c]);
      step := Proceed(c);
    } else if s.lock.ByClient? {
      step := Proceed(s.lock.c);
    } else {
      step := Dispatch(0);
    }
  }

  /** The steps of the dispatcher's thread, the calls begun, and the stops. */
  function OwnSteps(steps: seq<Step>): nat {
    if steps == [] then 0 else OwnSteps(steps[1..]) + if steps[0].Dispatch? || steps[0].Spurious? then 1 else 0
  }

  function Calls(steps: seq<Step>): nat {
    if steps == [] then 0 else Calls(steps[1..]) + if steps[0].Submit? || steps[0].CallShutdown? then 1 else 0
  }

  function Stops(steps: seq<Step>): nat {
    if steps == [] then 0 else Stops(steps[1..]) + if steps[0].Stop? then 1 else 0
  }

  function Stage(c: Client): nat {
    match c
    case Idle => 0
    case Owing => 1
    case ShutNotified => 1
    case AddDone(_) => 2
    case ShutPushed => 2
    case AddLocked(_) => 3
    case ShutLocked(_) => 3
    case Adding(_) => 4
    case ShuttingDown(_) => 4
  }

  function Stages(clients: seq<Client>): nat {
    if clients == [] then 0 else Stage(clients[0]) + Stages(clients[1..])
  }

  lemma {:induction false} StageChanged(clients: seq<Client>, c: nat, x: Client)
    requires c < |clients|
    ensures Stages(clients[c := x]) == Stages(clients) - Stage(clients[c]) + Stage(x)
  {
    hide Stage;
    if c == 0 {
      assert clients[c := x][1..] == clients[1..];
    } else {
      StageChanged(clients[1..], c - 1, x);
      assert clients[c := x][1..] == clients[1..][c - 1 := x];
    }
  }

  /** A client in a call takes at most four steps. */
  lemma StageFalls(s: State, step: Step)
    requires Enabled(s, step)
    ensures var was, now := Stages(s.clients), Stages(Next(s, step).clients);
            match step
            case Dispatch(_) => now == was
            case Spurious => now == was
            case Stop => now == was
            case Proceed(_) => now < was
            case _ => now == was + 4
  {
    hide Stages;
    match step
    case Submit(c, _) => StageChanged(s.clients, c, Next(s, step).clients[c]);
    case CallShutdown(c) => StageChanged(s.clients, c, Next(s, step).clients[c]);
    case Proceed(c) => StageChanged(s.clients, c, ClientNext(s, c).clients[c]);
    case _ =>
  }

  /** The other threads cannot go on for ever: besides the stops they take five
      steps for each call, and those that were left to take. */
  lemma {:induction false} OthersBounded(s: State, steps: seq<Step>)
    requires Playable(s, steps)
    ensures |steps| <= OwnSteps(steps) + Stages(s.clients) + 5 * Calls(steps) + Stops(steps)
    decreases |steps|
  {
    hide Enabled, Next, Stages;
    if steps != [] {
      StageFalls(s, steps[0]);
      OthersBounded(Next(s, steps[0]), steps[1..]);
    }
  }

  /** How many steps of the dispatcher it takes at most to take the list. */
  function Distance(pc: Pc, batch: seq<Task>): nat {
    match pc
    case InBatch => |batch| + 6
    case Checking => 5
    case Locking => 4
    case Holding => 3
    case Waiting(_) => 2
    case Swapping => 1
    case Ended => 0
  }

  /** The list is taken as one batch from `s` to `s'`. */
  predicate Takes(s: State, s': State, list: seq<Task>) {
    s.pc.Swapping? && s'.pc.InBatch? && s'.batch == s.list && list <= s.list
  }

  lemma DistanceFalls(s: State, step: Step)
    requires Enabled(s, step) && s.list != []
    ensures var s' := Next(s, step);
            || Takes(s, s', s.list)
            || (s.list <= s'.list && Distance(s'.pc, s'.batch)
                  <= Distance(s.pc, s.batch) - if step.Dispatch? || step.Spurious? then 1 else 0)
  {
  }

  /** At some point along the steps the dispatcher ends, or takes all of `list`
      as part of one batch. */
  predicate TakesOrEnds(s: State, steps: seq<Step>, list: seq<Task>)
    requires Playable(s, steps)
    decreases |steps|
  {
    s.pc.Ended?
    || (steps != [] && (Takes(s, Next(s, steps[0]), list) || TakesOrEnds(Next(s, steps[0]), steps[1..], list)))
  }

  /** What is in the list is taken within `Distance` steps of the dispatcher,
      whatever all others do meanwhile, unless the dispatcher ends first. */
  lemma {:induction false} TakenInTime(s: State, steps: seq<Step>, list: seq<Task>)
    requires Playable(s, steps) && list != [] && list <= s.list
    requires OwnSteps(steps) >= Distance(s.pc, s.batch)
    ensures TakesOrEnds(s, steps, list)
    decreases |steps|
  {
    hide Enabled, Next;
    if !s.pc.Ended? {
      DistanceFalls(s, steps[0]);
      if !Takes(s, Next(s, steps[0]), list) {
        TakenInTime(Next(s, steps[0]), steps[1..], list);
      }
    }
  }

  /** The same in steps of all threads. */
  lemma TakenInSteps(s: State, steps: seq<Step>)
    requires Playable(s, steps) && s.list != []
    requires |steps| >= Distance(s.pc, s.batch) + Stages(s.clients) + 5 * Calls(steps) + Stops(steps)
    ensures TakesOrEnds(s, steps, s.list)
  {
    OthersBounded(s, steps);
    TakenInTime(s, steps, s.list);
  }

  /** The thread is stopped, or will be by a task it has or will take. */
  predicate StopComes(s: State) {
    s.thread == Terminated || HasStop(s.batch) || HasStop(s.list)
  }

  /** A call of `stop` does no harm here: not between the run of the task of
      `shutdown` and the next check, or not with another such task ahead. */
  predicate Harmless(s: State) {
    s.pc.Ended? || s.thread != Terminated || HasStop(s.batch) || HasStop(s.list)
  }

  predicate AllHarmless(s: State, steps: seq<Step>)
    requires Playable(s, steps)
    decreases |steps|
  {
    steps == [] || ((steps[0].Stop? ==> Harmless(s)) && AllHarmless(Next(s, steps[0]), steps[1..]))
  }

  function Rank(s: State): nat {
    match s.pc
    case Ended => 0
    case Checking => if s.thread == Terminated then 1 else 7
    case InBatch => if s.thread == Terminated || HasStop(s.batch) then 2 else 8
    case Swapping => 3
    case Waiting(_) => 4
    case Holding => 5
    case Locking => 6
  }

  /** How many steps of the dispatcher it takes at most to end, with no further
      task accepted and no stop. */
  function StepsToEnd(s: State): nat {
    |s.batch| + |s.list| + Rank(s)
  }

  lemma ClientNearsEnd(s: State, c: nat)
    requires Orderly(s) && StopComes(s) && Enabled(s, Proceed(c))
    ensures var s' := ClientNext(s, c);
            StopComes(s') && StepsToEnd(s') - |s'.accepted| == StepsToEnd(s) - |s.accepted|
  {
    hide HasStop, AllLasting;
    if s.clients[c].AddLocked? || s.clients[c].ShutLocked? {
      LastingAppended(s.list, s.clients[c].task);
    }
  }

  lemma DispatcherNearsEnd(s: State, now: int)
    requires Orderly(s) && StopComes(s) && Enabled(s, Dispatch(now))
    ensures var s' := DispatchNext(s, now);
            StopComes(s') && StepsToEnd(s') < StepsToEnd(s) && s'.accepted == s.accepted
  {
    hide AllLasting;
    if s.batch != [] {
      hide HasStop;
      RestLasting(s.batch);
    }
  }

  lemma NearsEnd(s: State, step: Step)
    requires Orderly(s) && StopComes(s) && Enabled(s, step) && (step.Stop? ==> Harmless(s)) && !s.pc.Ended?
    ensures var s' := Next(s, step);
            && StopComes(s')
            && StepsToEnd(s') - |s'.accepted| <= StepsToEnd(s) - |s.accepted|
                 - (if step.Dispatch? || step.Spurious? then 1 else 0) + if step.Stop? then 6 else 0
  {
    hide ClientNext, DispatchNext, HasStop, AllLasting;
    match step
    case Proceed(c) => ClientNearsEnd(s, c);
    case Dispatch(now) => DispatcherNearsEnd(s, now);
    case _ =>
  }

  lemma {:induction false} EndedStays(s: State, steps: seq<Step>)
    requires Playable(s, steps) && s.pc.Ended?
    ensures Play(s, steps).pc.Ended?
    decreases |steps|
  {
    if steps != [] {
      EndedStays(Next(s, steps[0]), steps[1..]);
    }
  }

  /** Once a task of `shutdown` is pushed, the dispatcher ends: after so many of its own steps as
      it has tasks, one for each task accepted meanwhile, and eight; and six more
      for each harmless stop. */
  lemma {:induction false} ShutdownEnds(s: State, steps: seq<Step>)
    requires Orderly(s) && StopComes(s) && Playable(s, steps) && AllHarmless(s, steps)
    requires OwnSteps(steps) >= StepsToEnd(s) + (|Play(s, steps).accepted| - |s.accepted|) + 6 * Stops(steps)
    ensures Play(s, steps).pc.Ended?
    decreases |steps|
  {
    hide StepsToEnd, Next, Enabled, Orderly, StopComes, Harmless;
    AcceptedGrows(s, steps);
    if s.pc.Ended? {
      EndedStays(s, steps);
    } else {
      EndIsAhead(s);
      OrderlyKept(s, steps[0]);
      NearsEnd(s, steps[0]);
      ShutdownEnds(Next(s, steps[0]), steps[1..]);
    }
  }

  lemma {:induction false} AcceptedGrows(s: State, steps: seq<Step>)
    requires Playable(s, steps)
    ensures s.accepted <= Play(s, steps).accepted
    decreases |steps|
  {
    if steps != [] {
      AcceptedGrows(Next(s, steps[0]), steps[1..]);
    }
  }

  lemma EndIsAhead(s: State)
    requires !s.pc.Ended?
    ensures StepsToEnd(s) > 0
  {
  }

  /** No task that stops the thread is anywhere. */
  ghost predicate NoStopAhead(s: State) {
    && s.thread != Terminated && !s.pc.Ended? && !HasStop(s.batch) && !HasStop(s.list)
    && forall c | 0 <= c < |s.clients| :: !HandStops(s.clients[c])
  }

  predicate HandStops(c: Client) {
    c.ShuttingDown? || c.ShutLocked? || ((c.Adding? || c.AddLocked?) && c.task.stops)
  }

  lemma StopAppended(tasks: seq<Task>, t: Task)
    ensures HasStop(tasks + [t]) <==> HasStop(tasks) || t.stops
  {
    if HasStop(tasks) {
      var i :| 0 <= i < |tasks| && tasks[i].stops;
      assert (tasks + [t])[i].stops;
    }
    if t.stops {
      assert (tasks + [t])[|tasks|].stops;
    }
  }

  lemma StopFirst(tasks: seq<Task>)
    requires tasks != []
    ensures HasStop(tasks) <==> tasks[0].stops || HasStop(tasks[1..])
  {
    assert tasks == [tasks[0]] + tasks[1..];
    if HasStop(tasks[1..]) {
      var i :| 0 <= i < |tasks[1..]| && tasks[1..][i].stops;
      assert tasks[i + 1].stops;
    }
  }

  lemma NoStopKept(s: State, step: Step)
    requires NoStopAhead(s) && Enabled(s, step) && !step.CallShutdown?
    ensures NoStopAhead(Next(s, step))
  {
    hide HasStop;
    NoStops();
    match step
    case Dispatch(_) =>
      if s.batch != [] {
        StopFirst(s.batch);
      }
    case Proceed(c) =>
      if s.clients[c].AddLocked? {
        StopAppended(s.list, s.clients[c].task);
      }
    case _ =>
  }

  lemma NoStops()
    ensures !HasStop([])
  {
  }

  predicate NoMoreShutdown(steps: seq<Step>) {
    forall i | 0 <= i < |steps| :: !steps[i].CallShutdown?
  }

  /** Then the dispatcher does not end until `shutdown` is called. */
  lemma {:induction false} NeverEnds(s: State, steps: seq<Step>)
    requires NoStopAhead(s) && Playable(s, steps)
    requires NoMoreShutdown(steps)
    ensures NoStopAhead(Play(s, steps)) && !Play(s, steps).pc.Ended?
    decreases |steps|
  {
    hide Next, Enabled;
    if steps != [] {
      NoStopKept(s, steps[0]);
      NeverEnds(Next(s, steps[0]), steps[1..]);
    }
  }

  /** Exactly when a `stop` undoes a `shutdown`: with no other call of `shutdown`
      under way, a stop in a state that is not harmless leaves nothing that would
      ever end the dispatcher, and one in a harmless state leaves it ended or
      bound to end. */
  lemma StopMatters(s: State)
    requires Orderly(s) && (s.pc.Ended? || StopComes(s)) && forall c | 0 <= c < |s.clients| :: !HandStops(s.clients[c])
    ensures NoStopAhead(Next(s, Stop)) <==> !Harmless(s)
    ensures Harmless(s) <==> Next(s, Stop).pc.Ended? || StopComes(Next(s, Stop))
  {
  }

  lemma {:induction false} PlayJoined(s: State, first: seq<Step>, second: seq<Step>)
    requires Playable(s, first) && Playable(Play(s, first), second)
    ensures Playable(s, first + second) && Play(s, first + second) == Play(Play(s, first), second)
    decreases |first|
  {
    hide Enabled, Next;
    if first == [] {
      assert first + second == second;
    } else {
      assert (first + second)[1..] == first[1..] + second;
      PlayJoined(Next(s, first[0]), first[1..], second);
    }
  }

  lemma PlayOne(s: State, first: seq<Step>, step: Step)
    requires Playable(s, first) && Enabled(Play(s, first), step)
    ensures Playable(s, first + [step]) && Play(s, first + [step]) == Next(Play(s, first), step)
  {
    hide Enabled, Next;
    var t := Play(s, first);
    assert [step][1..] == [] && Playable(Next(t, step), []);
    PlayJoined(s, first, [step]);
  }

  const SHUTDOWN_TASK := Task(0, 0, true)

  /** One client calls `shutdown` and is done before the dispatcher begins. */
  lemma CalledShutdown() returns (steps: seq<Step>)
    ensures CallShutdown(0) in steps && Playable(Started(1), steps)
    ensures Play(Started(1), steps)
            == Started(1).(list := [SHUTDOWN_TASK], submitted := [SHUTDOWN_TASK], accepted := [SHUTDOWN_TASK])
  {
    hide Play, Playable;
    var s, call, p := Started(1), CallShutdown(0), Proceed(0);
    assert s.clients == [Idle];
    NoSteps(s);
    steps := [];
    PlayOne(s, steps, call);
    steps := steps + [call];
    assert Play(s, steps) == s.(clients := [ShuttingDown(SHUTDOWN_TASK)], submitted := [SHUTDOWN_TASK]);
    PlayOne(s, steps, p);
    steps := steps + [p];
    PlayOne(s, steps, p);
    steps := steps + [p];
    assert Play(s, steps).list == [SHUTDOWN_TASK] && Play(s, steps).accepted == [SHUTDOWN_TASK];
    PlayOne(s, steps, p);
    steps := steps + [p];
    PlayOne(s, steps, p);
    steps := steps + [p];
    assert Play(s, steps).clients == [Idle];
  }

  lemma NoSteps(s: State)
    ensures Playable(s, []) && Play(s, []) == s
  {
  }

  /** The dispatcher then takes the task, runs it and comes back to its check. */
  lemma RanShutdown() returns (steps: seq<Step>)
    ensures Playable(Started(1), steps) && CallShutdown(0) in steps
    ensures Play(Started(1), steps) == Started(1).(
              thread := Terminated, cycle := 1, outcomes := [Handle(SHUTDOWN_TASK, 0)],
              submitted := [SHUTDOWN_TASK], accepted := [SHUTDOWN_TASK])
  {
    hide Play, Playable;
    steps := CalledShutdown();
    var s, d := Started(1), Dispatch(0);
    PlayOne(s, steps, d);
    steps := steps + [d];
    PlayOne(s, steps, d);
    steps := steps + [d];
    PlayOne(s, steps, d);
    steps := steps + [d];
    PlayOne(s, steps, d);
    steps := steps + [d];
    assert Play(s, steps).batch == [SHUTDOWN_TASK] && Play(s, steps).list == [];
    PlayOne(s, steps, d);
    steps := steps + [d];
    assert Play(s, steps).thread == Terminated && Play(s, steps).batch == [];
    PlayOne(s, steps, d);
    steps := steps + [d];
  }

  /** The harm done: a whole run in which `shutdown` was called and its task was
      run, then `stop` was called, and the dispatcher waits. No thread can go on,
      and none of the steps that could still follow ends the dispatcher. */
  lemma StopUndoesShutdown() returns (steps: seq<Step>)
    ensures Playable(Started(1), steps) && CallShutdown(0) in steps
    ensures var s := Play(Started(1), steps);
            && Stopped(s.outcomes) && s.pc == Waiting(false) && s.list == []
            && (forall step | Internal(step) :: !Enabled(s, step))
            && forall more | Playable(s, more) && NoMoreShutdown(more) :: !Play(s, more).pc.Ended?
  {
    hide Play, Playable;
    steps := RanShutdown();
    var s, d := Started(1), Dispatch(0);
    PlayOne(s, steps, Stop);
    steps := steps + [Stop];
    PlayOne(s, steps, d);
    steps := steps + [d];
    PlayOne(s, steps, d);
    steps := steps + [d];
    PlayOne(s, steps, d);
    steps := steps + [d];
    var t := Play(s, steps);
    assert t.outcomes[0].ran && t.outcomes[0].task.stops;
    forall more | Playable(t, more) && NoMoreShutdown(more) ensures !Play(t, more).pc.Ended? {
      NeverEnds(t, more);
    }
  }

  /** A call of `addTask` that nobody interrupts: while the thread runs, the task
      comes last in the list, and a dispatcher that waits is notified if and only
      if the list was empty; otherwise the task is rejected. */
  lemma AddTaskAlone(s: State, c: nat, expiration: int) returns (steps: seq<Step>)
    requires c < |s.clients| && s.clients[c] == Idle && s.lock == Free
    ensures Playable(s, steps)
    ensures
      var t, s' := Task(|s.submitted|, expiration, false), Play(s, steps);
      var submitted := s.submitted + [t];
      s' == if s.thread == Running then
              s.(submitted := submitted, list := s.list + [t], accepted := s.accepted + [t],
                 pc := if s.pc.Waiting? && s.list == [] then Waiting(true) else s.pc)
            else s.(submitted := submitted, rejected := s.rejected + [t])
  {
    hide Play, Playable;
    var p := Proceed(c);
    NoSteps(s);
    steps := [];
    PlayOne(s, steps, Submit(c, expiration));
    steps := steps + [Submit(c, expiration)];
    PlayOne(s, steps, p);
    steps := steps + [p];
    PlayOne(s, steps, p);
    steps := steps + [p];
    PlayOne(s, steps, p);
    steps := steps + [p];
    if s.thread == Running && s.list == [] {
      PlayOne(s, steps, p);
      steps := steps + [p];
    }
    assert Play(s, steps).clients == s.clients;
  }

  /** A waiting dispatcher can wake up for no reason whenever the mutex is free;
      it then takes what there is, and with nothing there comes back to its check. */
  lemma SpuriousWakeup(s: State, now: int)
    requires s.pc.Waiting? && s.lock == Free && s.list == [] && s.batch == []
    ensures Enabled(s, Spurious)
    ensures var woken := Next(s, Spurious);
            Enabled(woken, Dispatch(now)) && DispatchNext(DispatchNext(woken, now), now) == s.(pc := Checking)
  {
  }
}
