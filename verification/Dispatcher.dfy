/** The task queue of src/core/tasks.cpp: its data, the functions of its three
    critical sections, and the class that carries them out. */
module Tasks {

  datatype ThreadState = Running | Closing | Terminated

  /** `expiration` 0 is `SYSTEM_TIME_ZERO`. `stops` marks the task that
      `shutdown` makes. */
  datatype Task = Task(id: nat, expiration: int, stops: bool)

  predicate HasExpired(t: Task, now: int) {
    t.expiration != 0 && t.expiration < now
  }

  /** What an expiration means: a task with one is run up to that time and never
      after it, and one without is always run. */
  lemma Expiry(t: Task, now: int)
    ensures t.expiration == 0 ==> !HasExpired(t, now)
    ensures t.expiration != 0 ==> (HasExpired(t, now) <==> now > t.expiration)
    ensures now <= t.expiration ==> !HasExpired(t, now)
    ensures forall later | now <= later && HasExpired(t, now) :: HasExpired(t, later)
  {
  }

  /** What became of a task that the dispatcher took from its list. */
  datatype Outcome = Outcome(task: Task, now: int, ran: bool)

  function TasksOf(outcomes: seq<Outcome>): seq<Task> {
    seq(|outcomes|, i requires 0 <= i < |outcomes| => outcomes[i].task)
  }

  function Handle(t: Task, now: int): Outcome {
    Outcome(t, now, !HasExpired(t, now))
  }

  /** What becomes of a batch, the clock being read once a task. */
  function Handled(tasks: seq<Task>, clock: seq<int>): (outcomes: seq<Outcome>)
    requires |clock| == |tasks|
    ensures TasksOf(outcomes) == tasks && Honest(outcomes)
  {
    seq(|tasks|, i requires 0 <= i < |tasks| => Handle(tasks[i], clock[i]))
  }

  /** The state of the thread after a task. */
  function After(state: ThreadState, o: Outcome): ThreadState {
    if o.ran && o.task.stops then Terminated else state
  }

  function Ran(outcomes: seq<Outcome>): nat {
    if outcomes == [] then 0 else Ran(outcomes[..|outcomes| - 1]) + if outcomes[|outcomes| - 1].ran then 1 else 0
  }

  /** Each task with the outcome that the clock gave it. */
  predicate Honest(outcomes: seq<Outcome>) {
    forall i | 0 <= i < |outcomes| :: outcomes[i] == Handle(outcomes[i].task, outcomes[i].now)
  }

  predicate Stopped(outcomes: seq<Outcome>) {
    exists i :: 0 <= i < |outcomes| && outcomes[i].ran && outcomes[i].task.stops
  }

  class Dispatcher {
    var state: ThreadState
    var taskList: seq<Task>
    var cycle: nat

    /** As `start` leaves it. */
    constructor ()
      ensures state == Running && taskList == [] && cycle == 0
    {
      state, taskList, cycle := Running, [], 0;
    }

    /** The critical section of `addTask`. */
    method AddTask(task: Task) returns (doSignal: bool)
      modifies this`taskList
      ensures doSignal == (state == Running && old(taskList) == [])
      ensures taskList == if state == Running then old(taskList) + [task] else old(taskList)
    {
      doSignal := false;
      if state == Running {
        doSignal := taskList == [];
        taskList := taskList + [task];
      }
    }

    /** The critical section of `shutdown`. */
    method Shutdown(id: nat)
      modifies this`taskList
      ensures taskList == old(taskList) + [Task(id, 0, true)]
    {
      taskList := taskList + [Task(id, 0, true)];
    }

    method Stop()
      modifies this`state
      ensures state == Closing
    {
      state := Closing;
    }

    /** The swap and the loop over the tasks taken. `clock` has the time of each check of
        an expiration. What became of the tasks is reported in order. */
    method RunBatch(clock: seq<int>) returns (outcomes: seq<Outcome>)
      requires |clock| == |taskList|
      modifies this
      ensures taskList == [] && outcomes == Handled(old(taskList), clock)
      ensures
        forall i | 0 <= i < |clock| ::
          && outcomes[i].task == old(taskList)[i] && outcomes[i].now == clock[i]
          && (outcomes[i].ran <==> outcomes[i].task.expiration == 0 || clock[i] <= outcomes[i].task.expiration)
      ensures cycle == old(cycle) + Ran(outcomes)
      ensures state == if Stopped(outcomes) then Terminated else old(state)
    {
      var tmpTaskList := taskList;
      taskList := [];
      outcomes := [];
      var i := 0;
      while i < |tmpTaskList|
        invariant 0 <= i <= |tmpTaskList| && |outcomes| == i
        invariant taskList == [] && outcomes == Handled(tmpTaskList[..i], clock[..i])
        invariant cycle == old(cycle) + Ran(outcomes)
        invariant state == if Stopped(outcomes) then Terminated else old(state)
      {
        var task := tmpTaskList[i];
        var ran := !HasExpired(task, clock[i]);
        ghost var before := outcomes;
        if ran {
          cycle := cycle + 1;
          if task.stops {
            state := Terminated;
          }
        }
        outcomes := outcomes + [Outcome(task, clock[i], ran)];
        assert outcomes == Handled(tmpTaskList[..i + 1], clock[..i + 1]);
        OneMore(before, Handle(task, clock[i]));
        i := i + 1;
      }
      assert tmpTaskList[..i] == tmpTaskList && clock[..i] == clock;
    }
  }

  /** `Ran` is the number of the tasks that were run. */
  lemma {:induction false} RanCounts(outcomes: seq<Outcome>)
    ensures Ran(outcomes) == |set i | 0 <= i < |outcomes| && outcomes[i].ran|
  {
    var all := set i | 0 <= i < |outcomes| && outcomes[i].ran;
    if outcomes == [] {
      assert all == {};
    } else {
      var front, last := outcomes[..|outcomes| - 1], |outcomes| - 1;
      RanCounts(front);
      var before := set i | 0 <= i < |front| && front[i].ran;
      assert forall i | 0 <= i < |front| :: front[i] == outcomes[i];
      assert all == before + if outcomes[last].ran then {last} else {};
    }
  }

  lemma OneMore(outcomes: seq<Outcome>, o: Outcome)
    ensures TasksOf(outcomes + [o]) == TasksOf(outcomes) + [o.task]
    ensures Ran(outcomes + [o]) == Ran(outcomes) + if o.ran then 1 else 0
    ensures Stopped(outcomes + [o]) <==> Stopped(outcomes) || (o.ran && o.task.stops)
  {
    var all := outcomes + [o];
    assert all[..|all| - 1] == outcomes;
    if Stopped(outcomes) {
      var i :| 0 <= i < |outcomes| && outcomes[i].ran && outcomes[i].task.stops;
      assert all[i] == outcomes[i];
    }
    if o.ran && o.task.stops {
      assert all[|outcomes|] == o;
    }
  }
}
