/** Every interleaving of the dispatcher's thread with any number of clients
    that add tasks, shut it down or stop it: `threadMain`, `addTask` and
    `shutdown` cut at each point where another thread can see the difference. */
module DispatcherRuns {
  import opened Tasks

  datatype Owner = Free | ByDispatcher | ByClient(c: nat)

  /** Where `threadMain` is. It owns the mutex in `Holding` and in `Swapping`. */
  datatype Pc = Checking | Locking | Holding | Waiting(notified: bool) | Swapping | InBatch | Ended

  /** Where a client is: in `addTask`, from `Adding` to `Owing`, or in
      `shutdown`. It owns the mutex in the states that say so by `Owns`. */
  datatype Client =
    | Idle
    | Adding(task: Task)
    | AddLocked(task: Task)
    | AddDone(doSignal: bool)
    | Owing
    | ShuttingDown(task: Task)
    | ShutLocked(task: Task)
    | ShutPushed
    | ShutNotified

  predicate Owns(c: Client) {
    c.AddLocked? || c.AddDone? || c.ShutLocked? || c.ShutPushed? || c.ShutNotified?
  }

  /** A call of `notify_one` still to come. */
  predicate Owes(c: Client) {
    c == AddDone(true) || c.Owing? || c.ShutPushed?
  }

  /** `submitted`, `accepted`, `rejected` and `outcomes` record, in order, the
      tasks made, pushed and deleted by `addTask`, and what the dispatcher did
      with those it took. */
  datatype State = State(
    thread: ThreadState, lock: Owner, list: seq<Task>, pc: Pc, batch: seq<Task>, cycle: nat, clients: seq<Client>,
    submitted: seq<Task>, accepted: seq<Task>, rejected: seq<Task>, outcomes: seq<Outcome>)

  datatype Step =
    | Dispatch(now: int)
    | Spurious
    | Submit(c: nat, expiration: int)
    | CallShutdown(c: nat)
    | Proceed(c: nat)
    | Stop

  function Started(clients: nat): State {
    State(Running, Free, [], Checking, [], 0, seq(clients, _ => Idle), [], [], [], [])
  }

  predicate Enabled(s: State, step: Step) {
    match step
    case Dispatch(_) =>
      !s.pc.Ended? && (s.pc == Locking || s.pc == Waiting(true) ==> s.lock == Free) && s.pc != Waiting(false)
    case Spurious => s.pc.Waiting? && s.lock == Free
    case Submit(c, _) => c < |s.clients| && s.clients[c] == Idle
    case CallShutdown(c) => c < |s.clients| && s.clients[c] == Idle
    case Proceed(c) =>
      && c < |s.clients| && s.clients[c] != Idle
      && (s.clients[c].Adding? || s.clients[c].ShuttingDown? ==> s.lock == Free)
    case Stop => true
  }

  function Notified(pc: Pc): Pc {
    if pc.Waiting? then Waiting(true) else pc
  }

  /** `threadMain`. A task that calls the dispatcher does so as a client would. */
  function DispatchNext(s: State, now: int): State
    requires Enabled(s, Dispatch(now))
  {
    match s.pc
    case Checking => s.(pc := if s.thread == Terminated then Ended else Locking)
    case Locking => s.(pc := Holding, lock := ByDispatcher)
    case Holding => if s.list == [] then s.(pc := Waiting(false), lock := Free) else s.(pc := Swapping)
    case Waiting(_) => s.(pc := Swapping, lock := ByDispatcher)
    case Swapping => s.(pc := InBatch, lock := Free, batch := s.list, list := s.batch)
    case InBatch =>
      if s.batch == [] then s.(pc := Checking)
      else
        var o := Handle(s.batch[0], now);
        s.(batch := s.batch[1..], outcomes := s.outcomes + [o], thread := After(s.thread, o),
           cycle := if o.ran then s.cycle + 1 else s.cycle)
    case Ended => s
  }

  function ClientNext(s: State, c: nat): State
    requires Enabled(s, Proceed(c))
  {
    match s.clients[c]
    case Idle => s
    case Adding(t) => s.(clients := s.clients[c := AddLocked(t)], lock := ByClient(c))
    case AddLocked(t) =>
      if s.thread == Running then
        s.(clients := s.clients[c := AddDone(s.list == [])], list := s.list + [t], accepted := s.accepted + [t])
      else s.(clients := s.clients[c := AddDone(false)], rejected := s.rejected + [t])
    case AddDone(doSignal) => s.(clients := s.clients[c := if doSignal then Owing else Idle], lock := Free)
    case Owing => s.(clients := s.clients[c := Idle], pc := Notified(s.pc))
    case ShuttingDown(t) => s.(clients := s.clients[c := ShutLocked(t)], lock := ByClient(c))
    case ShutLocked(t) => s.(clients := s.clients[c := ShutPushed], list := s.list + [t], accepted := s.accepted + [t])
    case ShutPushed => s.(clients := s.clients[c := ShutNotified], pc := Notified(s.pc))
    case ShutNotified => s.(clients := s.clients[c := Idle], lock := Free)
  }

  function Next(s: State, step: Step): State
    requires Enabled(s, step)
  {
    match step
    case Dispatch(now) => DispatchNext(s, now)
    case Spurious => s.(pc := Swapping, lock := ByDispatcher)
    case Submit(c, expiration) =>
      var t := Task(|s.submitted|, expiration, false);
      s.(clients := s.clients[c := Adding(t)], submitted := s.submitted + [t])
    case CallShutdown(c) =>
      var t := Task(|s.submitted|, 0, true);
      s.(clients := s.clients[c := ShuttingDown(t)], submitted := s.submitted + [t])
    case Proceed(c) => ClientNext(s, c)
    case Stop => s.(thread := Closing)
  }

  /** The steps can be taken one after the other from `s`. */
  predicate Playable(s: State, steps: seq<Step>)
    decreases |steps|
  {
    steps == [] || (Enabled(s, steps[0]) && Playable(Next(s, steps[0]), steps[1..]))
  }

  /** Where they lead: every run of the program is some `Play`. */
  function Play(s: State, steps: seq<Step>): State
    requires Playable(s, steps)
    decreases |steps|
  {
    if steps == [] then s else Play(Next(s, steps[0]), steps[1..])
  }

  /** The mutex is held by whoever is inside a critical section. */
  ghost predicate Locked(s: State) {
    && (s.lock == ByDispatcher <==> s.pc.Holding? || s.pc.Swapping?)
    && (s.lock.ByClient? ==> s.lock.c < |s.clients|)
    && forall c | 0 <= c < |s.clients| :: Owns(s.clients[c]) <==> s.lock == ByClient(c)
  }

  /** No lost wakeup. */
  ghost predicate NoneLost(s: State) {
    s.pc == Waiting(false) && s.list != [] ==> exists c :: 0 <= c < |s.clients| && Owes(s.clients[c])
  }

  /** Nothing leaves the queue but in the order in which it came. */
  predicate InOrder(s: State) {
    && s.accepted == TasksOf(s.outcomes) + s.batch + s.list
    && (s.batch != [] ==> s.pc.InBatch?)
  }

  /** The counter, the outcomes, and the reasons to reject and to end. */
  ghost predicate Booked(s: State) {
    && s.cycle == Ran(s.outcomes) && Honest(s.outcomes)
    && (s.thread == Running ==> s.rejected == [])
    && (s.thread == Terminated || s.pc.Ended? ==> Stopped(s.outcomes))
  }

  lemma ClientLockKept(s: State, c: nat)
    requires Locked(s) && Enabled(s, Proceed(c))
    ensures Locked(ClientNext(s, c))
  {
  }

  lemma LockKept(s: State, step: Step)
    requires Locked(s) && Enabled(s, step)
    ensures Locked(Next(s, step))
  {
    hide ClientNext;
    if step.Proceed? {
      ClientLockKept(s, step.c);
    }
  }

  lemma WakeupKept(s: State, step: Step)
    requires Locked(s) && NoneLost(s) && InOrder(s) && Enabled(s, step)
    ensures NoneLost(Next(s, step))
  {
    var s' := Next(s, step);
    if s'.pc == Waiting(false) && s'.list != [] {
      if s.pc == Waiting(false) && s.list != [] {
        var c :| 0 <= c < |s.clients| && Owes(s.clients[c]);
        assert Owes(s'.clients[c]);
      } else {
        assert Owes(s'.clients[step.c]);
      }
    }
  }

  lemma OrderKept(s: State, step: Step)
    requires InOrder(s) && Enabled(s, step)
    ensures InOrder(Next(s, step))
  {
    if step.Dispatch? && s.pc.InBatch? && s.batch != [] {
      OneMore(s.outcomes, Handle(s.batch[0], step.now));
      assert s.batch == [s.batch[0]] + s.batch[1..];
    }
  }

  lemma HonestAppended(outcomes: seq<Outcome>, t: Task, now: int)
    requires Honest(outcomes)
    ensures Honest(outcomes + [Handle(t, now)])
  {
  }

  lemma BooksKept(s: State, step: Step)
    requires Booked(s) && Enabled(s, step)
    ensures Booked(Next(s, step))
  {
    hide Ran, Honest, Stopped, Handle, TasksOf;
    if step.Dispatch? && s.pc.InBatch? && s.batch != [] {
      OneMore(s.outcomes, Handle(s.batch[0], step.now));
      HonestAppended(s.outcomes, s.batch[0], step.now);
    }
  }

  function Count(tasks: seq<Task>, t: Task): nat {
    multiset(tasks)[t]
  }

  lemma CountAppended(tasks: seq<Task>, u: Task, t: Task)
    ensures Count(tasks + [u], t) == Count(tasks, t) + if u == t then 1 else 0
  {
  }

  /** Whether a client has made the task and not yet handed it over. */
  function InHand(c: Client, t: Task): nat {
    if (c.Adding? || c.AddLocked? || c.ShuttingDown? || c.ShutLocked?) && c.task == t then 1 else 0
  }

  function InHands(clients: seq<Client>, t: Task): nat {
    if clients == [] then 0 else InHand(clients[0], t) + InHands(clients[1..], t)
  }

  lemma {:induction false} HandChanged(clients: seq<Client>, c: nat, x: Client, t: Task)
    requires c < |clients|
    ensures InHands(clients[c := x], t) == InHands(clients, t) - InHand(clients[c], t) + InHand(x, t)
  {
    hide InHand;
    if c == 0 {
      assert clients[c := x][1..] == clients[1..];
    } else {
      HandChanged(clients[1..], c - 1, x, t);
      assert clients[c := x][1..] == clients[1..][c - 1 := x];
    }
  }

  lemma {:induction false} NothingInHand(n: nat, t: Task)
    ensures InHands(seq(n, _ => Idle), t) == 0
  {
    if n > 0 {
      NothingInHand(n - 1, t);
      assert seq(n, _ => Idle)[1..] == seq(n - 1, _ => Idle);
    }
  }

  /** The places where the task `t` is. */
  function Places(s: State, t: Task): nat {
    InHands(s.clients, t) + Count(s.rejected, t) + Count(s.accepted, t)
  }

  /** No task is lost or handled twice: a task is in as many places as it was
      made times, and each task made has an id of its own. */
  ghost predicate Conserved(s: State) {
    && (forall t :: Places(s, t) == Count(s.submitted, t))
    && forall i | 0 <= i < |s.submitted| :: s.submitted[i].id == i
  }

  lemma {:induction false} MadeOnce(tasks: seq<Task>, i: nat)
    requires i < |tasks| && forall j | 0 <= j < |tasks| :: tasks[j].id == j
    ensures Count(tasks, tasks[i]) == 1
  {
    var last, t := |tasks| - 1, tasks[i];
    assert tasks == tasks[..last] + [tasks[last]];
    CountAppended(tasks[..last], tasks[last], t);
    if i < last {
      assert tasks[..last][i] == t;
      MadeOnce(tasks[..last], i);
    } else {
      assert t !in tasks[..last];
    }
  }

  /** A task made is in exactly one place: a client's hands, rejected, executed
      or expired, in the batch, or in the list. */
  lemma OnePlace(s: State, i: nat)
    requires Safe(s) && i < |s.submitted|
    ensures var t := s.submitted[i];
            InHands(s.clients, t) + Count(s.rejected, t) + Count(TasksOf(s.outcomes), t) + Count(s.batch, t)
                + Count(s.list, t) == 1
  {
    hide InHands, Locked, NoneLost, Booked, Orderly;
    MadeOnce(s.submitted, i);
    assert Places(s, s.submitted[i]) == 1;
    CountJoined(TasksOf(s.outcomes) + s.batch, s.list, s.submitted[i]);
    CountJoined(TasksOf(s.outcomes), s.batch, s.submitted[i]);
  }

  lemma CountJoined(a: seq<Task>, b: seq<Task>, t: Task)
    ensures Count(a + b, t) == Count(a, t) + Count(b, t)
  {
  }

  lemma MadeKept(s: State, c: nat, u: Task, x: Client)
    requires Conserved(s) && c < |s.clients| && s.clients[c] == Idle && u.id == |s.submitted|
             && (x == Adding(u) || x == ShuttingDown(u))
    ensures Conserved(s.(clients := s.clients[c := x], submitted := s.submitted + [u]))
  {
    hide InHands, Count;
    var s' := s.(clients := s.clients[c := x], submitted := s.submitted + [u]);
    forall t ensures Places(s', t) == Count(s'.submitted, t) {
      assert Places(s, t) == Count(s.submitted, t);
      HandChanged(s.clients, c, x, t);
      CountAppended(s.submitted, u, t);
    }
  }

  lemma HandedKept(s: State, c: nat)
    requires Conserved(s) && Enabled(s, Proceed(c))
    ensures Conserved(ClientNext(s, c))
  {
    hide InHands, Count;
    var s' := ClientNext(s, c);
    forall t ensures Places(s', t) == Count(s'.submitted, t) {
      assert Places(s, t) == Count(s.submitted, t);
      HandChanged(s.clients, c, s'.clients[c], t);
      if s.clients[c].AddLocked? || s.clients[c].ShutLocked? {
        CountAppended(s.accepted, s.clients[c].task, t);
        CountAppended(s.rejected, s.clients[c].task, t);
      }
    }
  }

  lemma ConservedKept(s: State, step: Step)
    requires Conserved(s) && Enabled(s, step)
    ensures Conserved(Next(s, step))
  {
    hide InHands, ClientNext, Count;
    match step {
      case Submit(c, expiration) =>
        var t := Task(|s.submitted|, expiration, false);
        MadeKept(s, c, t, Adding(t));
      case CallShutdown(c) =>
        var t := Task(|s.submitted|, 0, true);
        MadeKept(s, c, t, ShuttingDown(t));
      case Proceed(c) => HandedKept(s, c);
      case _ =>
        assert forall t :: Places(Next(s, step), t) == Places(s, t);
    }
  }

  /** What holds in every reachable state. */
  ghost predicate Safe(s: State) {
    Locked(s) && NoneLost(s) && InOrder(s) && Booked(s) && Conserved(s) && Orderly(s)
  }

  lemma SafeKept(s: State, step: Step)
    requires Safe(s) && Enabled(s, step)
    ensures Safe(Next(s, step))
  {
    hide Next, Enabled, Locked, NoneLost, InOrder, Booked, Conserved, Orderly;
    LockKept(s, step);
    WakeupKept(s, step);
    OrderKept(s, step);
    BooksKept(s, step);
    ConservedKept(s, step);
    OrderlyKept(s, step);
  }

  lemma StartSafe(clients: nat)
    ensures Safe(Started(clients))
  {
    forall t ensures InHands(Started(clients).clients, t) == 0 {
      NothingInHand(clients, t);
    }
  }

  lemma {:induction false} SafeAlong(s: State, steps: seq<Step>)
    requires Safe(s) && Playable(s, steps)
    ensures Safe(Play(s, steps))
    decreases |steps|
  {
    hide Safe, Next, Enabled;
    if steps != [] {
      SafeKept(s, steps[0]);
      SafeAlong(Next(s, steps[0]), steps[1..]);
    }
  }

  /** In every interleaving of any number of clients with the dispatcher. */
  lemma RunsSafe(clients: nat, steps: seq<Step>)
    requires Playable(Started(clients), steps)
    ensures Safe(Play(Started(clients), steps))
  {
    StartSafe(clients);
    SafeAlong(Started(clients), steps);
  }

  lemma OutcomeOf(outcomes: seq<Outcome>, rest: seq<Task>, k: nat)
    requires k < |outcomes|
    ensures (TasksOf(outcomes) + rest)[k] == outcomes[k].task
  {
  }

  /** When `threadMain` returns, the task of a `shutdown` was run, and every
      task pushed before it was run, unless it had expired by then. */
  lemma ShutdownDrains(clients: nat, steps: seq<Step>) returns (k: nat)
    requires Playable(Started(clients), steps) && Play(Started(clients), steps).pc.Ended?
    ensures
      var s := Play(Started(clients), steps);
      && k < |s.outcomes| && k < |s.accepted| && s.accepted[k].stops && s.outcomes[k].ran
      && s.accepted == TasksOf(s.outcomes) + s.list
      && forall j | 0 <= j <= k ::
           var t, now := s.accepted[j], s.outcomes[j].now;
           s.outcomes[j].task == t && (s.outcomes[j].ran <==> t.expiration == 0 || now <= t.expiration)
  {
    hide Next, Enabled, Started, Play, Playable;
    RunsSafe(clients, steps);
    var s := Play(Started(clients), steps);
    k :| 0 <= k < |s.outcomes| && s.outcomes[k].ran && s.outcomes[k].task.stops;
    assert s.accepted == TasksOf(s.outcomes) + s.list;
    forall j | 0 <= j <= k
      ensures
        var t, now := s.accepted[j], s.outcomes[j].now;
        s.outcomes[j].task == t && (s.outcomes[j].ran <==> t.expiration == 0 || now <= t.expiration)
    {
      OutcomeOf(s.outcomes, s.list, j);
      assert s.outcomes[j] == Handle(s.outcomes[j].task, s.outcomes[j].now);
    }
  }

  /** The dispatcher's own steps, one for each reading of the clock. */
  function DispatchAll(s: State, clock: seq<int>): State
    requires s.pc.InBatch? && |clock| <= |s.batch|
    decreases |clock|
  {
    if clock == [] then s else DispatchAll(DispatchNext(s, clock[0]), clock[1..])
  }

  /** Taken together, the steps of a batch are what `Dispatcher.RunBatch` does. */
  lemma {:induction false} BatchAsAWhole(s: State, clock: seq<int>)
    requires s.pc.InBatch? && |clock| == |s.batch|
    ensures var os := Handled(s.batch, clock);
            DispatchAll(s, clock) == s.(batch := [], outcomes := s.outcomes + os, cycle := s.cycle + Ran(os),
                                        thread := if Stopped(os) then Terminated else s.thread)
    decreases |clock|
  {
    hide Ran, Stopped, Handle, Handled, TasksOf, Honest;
    HandledFirst(s.batch, clock);
    if clock == [] {
      NoneRan();
      assert s.outcomes + [] == s.outcomes;
    } else {
      var o, rest := Handle(s.batch[0], clock[0]), Handled(s.batch[1..], clock[1..]);
      BatchAsAWhole(DispatchNext(s, clock[0]), clock[1..]);
      OneFirst(o, rest);
      assert s.outcomes + ([o] + rest) == s.outcomes + [o] + rest;
    }
  }

  lemma HandledFirst(tasks: seq<Task>, clock: seq<int>)
    requires |clock| == |tasks|
    ensures Handled(tasks, clock)
            == if tasks == [] then [] else [Handle(tasks[0], clock[0])] + Handled(tasks[1..], clock[1..])
  {
  }

  lemma NoneRan()
    ensures Ran([]) == 0 && !Stopped([])
  {
  }

  lemma {:induction false} OneFirst(o: Outcome, rest: seq<Outcome>)
    ensures Ran([o] + rest) == Ran(rest) + if o.ran then 1 else 0
    ensures Stopped([o] + rest) <==> (o.ran && o.task.stops) || Stopped(rest)
  {
    hide TasksOf, Ran, Stopped;
    NoneRan();
    if rest == [] {
      OneMore([], o);
      assert [o] + rest == [] + [o];
    } else {
      var front, last := rest[..|rest| - 1], rest[|rest| - 1];
      OneFirst(o, front);
      OneMore(front, last);
      OneMore([o] + front, last);
      assert rest == front + [last] && [o] + rest == [o] + front + [last];
    }
  }

  predicate HasStop(tasks: seq<Task>) {
    exists i :: 0 <= i < |tasks| && tasks[i].stops
  }

  /** Only `shutdown` makes tasks that stop the thread, and they never expire. */
  predicate Lasting(t: Task) {
    t.stops ==> t.expiration == 0
  }

  predicate AllLasting(tasks: seq<Task>) {
    forall i | 0 <= i < |tasks| :: Lasting(tasks[i])
  }

  predicate HandLasting(c: Client) {
    c.Adding? || c.AddLocked? || c.ShuttingDown? || c.ShutLocked? ==> Lasting(c.task)
  }

  /** The tasks that stop the thread stay able to, and once it is stopped it
      takes no further batch. */
  ghost predicate Orderly(s: State) {
    && AllLasting(s.list) && AllLasting(s.batch)
    && (forall c | 0 <= c < |s.clients| :: HandLasting(s.clients[c]))
    && (s.thread == Terminated ==> s.pc.InBatch? || s.pc.Checking? || s.pc.Ended?)
    && (s.batch != [] ==> s.pc.InBatch?)
  }

  lemma LastingAppended(tasks: seq<Task>, t: Task)
    requires AllLasting(tasks) && Lasting(t)
    ensures AllLasting(tasks + [t]) && (HasStop(tasks) ==> HasStop(tasks + [t]))
  {
    if HasStop(tasks) {
      var i :| 0 <= i < |tasks| && tasks[i].stops;
      assert (tasks + [t])[i].stops;
    }
  }

  lemma OrderlyKept(s: State, step: Step)
    requires Orderly(s) && Enabled(s, step)
    ensures Orderly(Next(s, step))
  {
    hide AllLasting;
    match step
    case Dispatch(_) =>
      if s.pc.InBatch? && s.batch != [] {
        RestLasting(s.batch);
      } else {
        NoneLasting();
      }
    case Spurious =>
    case Proceed(c) =>
      if s.clients[c].AddLocked? || s.clients[c].ShutLocked? {
        LastingAppended(s.list, s.clients[c].task);
      }
    case _ =>
  }

  lemma NoneLasting()
    ensures AllLasting([])
  {
  }

  lemma RestLasting(tasks: seq<Task>)
    requires AllLasting(tasks) && tasks != []
    ensures Lasting(tasks[0]) && AllLasting(tasks[1..])
    ensures HasStop(tasks) <==> tasks[0].stops || HasStop(tasks[1..])
  {
    assert tasks == [tasks[0]] + tasks[1..];
    if HasStop(tasks[1..]) {
      var i :| 0 <= i < |tasks[1..]| && tasks[1..][i].stops;
      assert tasks[i + 1].stops;
    }
  }

  /** The dispatcher object is in the state that the machine says. */
  ghost predicate Shows(d: Dispatcher, s: State)
    reads d
  {
    d.state == s.thread && d.taskList == s.list && d.cycle == s.cycle
  }

  /** The critical section of `Dispatcher.AddTask` is the step of a client that
      holds the mutex. */
  method AddTaskStep(d: Dispatcher, ghost s: State, ghost c: nat, task: Task) returns (doSignal: bool)
    requires Shows(d, s) && c < |s.clients| && s.clients[c] == AddLocked(task)
    modifies d`taskList
    ensures Enabled(s, Proceed(c)) && Shows(d, Next(s, Proceed(c)))
    ensures Next(s, Proceed(c)).clients == s.clients[c := AddDone(doSignal)]
  {
    doSignal := d.AddTask(task);
  }

  method ShutdownStep(d: Dispatcher, ghost s: State, ghost c: nat, id: nat)
    requires Shows(d, s) && c < |s.clients| && s.clients[c] == ShutLocked(Task(id, 0, true))
    modifies d`taskList
    ensures Enabled(s, Proceed(c)) && Shows(d, Next(s, Proceed(c)))
  {
    d.Shutdown(id);
  }

  method StopStep(d: Dispatcher, ghost s: State)
    requires Shows(d, s)
    modifies d`state
    ensures Shows(d, Next(s, Stop))
  {
    d.Stop();
  }

  /** Swapping and running the batch is the step of the swap and then one step
      for each task. */
  method BatchStep(d: Dispatcher, ghost s: State, clock: seq<int>)
    requires Shows(d, s) && s.pc.Swapping? && s.batch == [] && |clock| == |s.list|
    modifies d
    ensures Shows(d, DispatchAll(DispatchNext(s, 0), clock))
  {
    hide Handled, Ran, Stopped;
    BatchAsAWhole(DispatchNext(s, 0), clock);
    var outcomes := d.RunBatch(clock);
  }
}
