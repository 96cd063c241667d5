/** The requests to the central server and their answers: `g_login` of
    lib/login.lua and `_onRedisMessage` of modules/login/request.lua. */
module Answers {
  import opened JsonParser
  import opened JsonRoundTrip
  import opened JsonText
  import opened JsonValues
  import opened Options

  /** How `requestCentralAnswer` ends. With `Unencodable`, `json.encode` raises an
      error. */
  datatype Outcome = Published | Unpublished | Unencodable

  datatype Ask = Ask(callback: nat, outcome: Outcome)

  /** What a callback does: its requests in order, and whether it ends with an
      error. An error of a request is one of the callback. */
  datatype Behaviour = Behaviour(asks: seq<Ask>, raises: bool)

  datatype Run = Run(id: nat, callback: nat, data: map<Key, Value>, raised: bool)

  /** `asked` records every request, the first with number 1; `runs` every
      invocation of a callback. */
  datatype State = State(generator: nat, callbacks: map<nat, nat>, asked: seq<Ask>, runs: seq<Run>)

  const START := State(0, map[], [], [])

  /** `requestCentralAnswer` */
  function Request(s: State, ask: Ask): State {
    var id := s.generator + 1;
    var callbacks := s.callbacks[id := ask.callback];
    State(id, if ask.outcome == Unpublished then callbacks - {id} else callbacks, s.asked + [ask], s.runs)
  }

  function Requests(s: State, asks: seq<Ask>): State
    decreases |asks|
  {
    if asks == [] then s else Requests(Request(s, asks[0]), asks[1..])
  }

  /** An error in one of its requests ends a callback. */
  predicate Possible(b: Behaviour) {
    forall i | 0 <= i < |b.asks| && b.asks[i].outcome == Unencodable :: b.raises && i == |b.asks| - 1
  }

  function Field(m: map<Key, Value>, name: string): Value {
    if Name(name) in m then m[Name(name)] else Nil
  }

  datatype Received = NoAnswer | Answer(id: int, data: map<Key, Value>)

  /** What `_onRedisMessage` makes of a message. `other` and `whole` stand for
      `tonumber` on the texts that are no small integers: which are numbers, and
      which of those are whole. */
  function Receive(message: string, other: string -> bool, whole: string -> Option<int>): Received {
    match Decode(message, other)
    case Good(Table(m), _) =>
      (var flag, data := Field(m, "__answer"), m - {Name("__answer"), Name("__answerId")};
       if flag == Nil || flag == Bool(false) then NoAnswer
       else match Field(m, "__answerId")
         case Num(Integer(n)) => Answer(n, data)
         case Num(OtherNumber(text)) => (match whole(text) case Some(n) => Answer(n, data) case None => NoAnswer)
         case _ => NoAnswer)
    case _ => NoAnswer
  }

  /** Which messages are answers: tables whose field `__answer` is neither missing
      nor false, with a whole number as `__answerId`. Their data are all else. */
  lemma ReceiveExactly(message: string, other: string -> bool, whole: string -> Option<int>, m: map<Key, Value>,
      next: nat)
    requires Decode(message, other) == Good(Table(m), next)
    ensures
      var flagged := Name("__answer") in m && m[Name("__answer")] !in {Nil, Bool(false)};
      var numbered := Name("__answerId") in m && m[Name("__answerId")].Num?;
      && (!flagged || !numbered ==> Receive(message, other, whole) == NoAnswer)
      && (flagged && numbered ==>
            match m[Name("__answerId")].n
            case Integer(n) => Receive(message, other, whole) == Answer(n, m - {Name("__answer"), Name("__answerId")})
            case OtherNumber(text) => Receive(message, other, whole).Answer? <==> whole(text).Some?)
  {
    hide Decode;
  }

  lemma OtherMessages(message: string, other: string -> bool, whole: string -> Option<int>)
    requires Decode(message, other).Good? ==> !Decode(message, other).value.Table?
    ensures Receive(message, other, whole) == NoAnswer
  {
    hide Decode;
  }

  /** `_onRedisMessage`. An error in the callback leaves its entry where it is. */
  function OnMessage(s: State, r: Received, b: Behaviour): State {
    if r.NoAnswer? || r.id !in s.callbacks then s
    else
      var ran := s.(runs := s.runs + [Run(r.id, s.callbacks[r.id], r.data, b.raises)]);
      var after := Requests(ran, b.asks);
      if b.raises then after else after.(callbacks := after.callbacks - {r.id})
  }

  datatype Step =
    | RequestStep(ask: Ask)
    | MessageStep(received: Received, behaviour: Behaviour)

  function Next(s: State, step: Step): State {
    match step
    case RequestStep(ask) => Request(s, ask)
    case MessageStep(r, b) => OnMessage(s, r, b)
  }

  function After(s: State, steps: seq<Step>): State {
    if steps == [] then s else Next(After(s, steps[..|steps| - 1]), steps[|steps| - 1])
  }

  /** The callback with which the request of that number was made. */
  predicate Own(s: State, id: nat, callback: nat) {
    1 <= id <= |s.asked| && s.asked[id - 1].callback == callback && s.asked[id - 1].outcome != Unpublished
  }

  /** Entries are the callbacks of their own requests, and so is what was run. A
      callback runs again only after it raised an error. */
  ghost predicate Matched(s: State) {
    && s.generator == |s.asked|
    && (forall id | id in s.callbacks :: Own(s, id, s.callbacks[id]))
    && (forall i | 0 <= i < |s.runs| :: Own(s, s.runs[i].id, s.runs[i].callback))
    && (forall i, j | 0 <= i < j < |s.runs| && s.runs[i].id == s.runs[j].id :: s.runs[i].raised)
  }

  /** What was run and raised no error has no entry. */
  ghost predicate Cleared(s: State) {
    forall i | 0 <= i < |s.runs| && !s.runs[i].raised :: s.runs[i].id !in s.callbacks
  }

  /** From `s` to `t`, requests were added and none of the entries of `s` changed. */
  ghost predicate Extends(s: State, t: State) {
    && s.runs == t.runs && s.asked <= t.asked && s.generator <= t.generator
    && (forall id | id <= s.generator :: id in t.callbacks <==> id in s.callbacks)
    && (forall id | id in s.callbacks :: id in t.callbacks && t.callbacks[id] == s.callbacks[id])
  }

  lemma RequestExtends(s: State, ask: Ask)
    requires Matched(s)
    ensures Matched(Request(s, ask)) && Extends(s, Request(s, ask))
  {
  }

  lemma {:induction false} RequestsExtend(s: State, asks: seq<Ask>)
    requires Matched(s)
    ensures Matched(Requests(s, asks)) && Extends(s, Requests(s, asks))
    decreases |asks|
  {
    hide Matched;
    if asks != [] {
      RequestExtends(s, asks[0]);
      RequestsExtend(Request(s, asks[0]), asks[1..]);
    }
  }

  /** A message never touches the entry of another request, and a request made by the
      callback keeps its entry. */
  lemma MessageKeeps(s: State, r: Received, b: Behaviour)
    requires Matched(s) && Cleared(s)
    ensures Matched(OnMessage(s, r, b)) && Cleared(OnMessage(s, r, b))
  {
    if r.Answer? && r.id in s.callbacks {
      var ran := s.(runs := s.runs + [Run(r.id, s.callbacks[r.id], r.data, b.raises)]);
      RequestsExtend(ran, b.asks);
    }
  }

  /** Every run of the request's callback raised an error. */
  ghost predicate OnlyRaised(runs: seq<Run>, id: int) {
    forall i | 0 <= i < |runs| && runs[i].id == id :: runs[i].raised
  }

  /** The request was made, was not one whose publishing failed, and its callback
      was not run without an error. */
  ghost predicate Unanswered(s: State, id: int) {
    1 <= id <= |s.asked| && s.asked[id - 1].outcome != Unpublished && OnlyRaised(s.runs, id)
  }

  ghost predicate Exact(s: State) {
    forall id: int :: id in s.callbacks <==> Unanswered(s, id)
  }

  lemma RequestExact(s: State, ask: Ask)
    requires Matched(s) && Exact(s)
    ensures Exact(Request(s, ask))
  {
    var t := Request(s, ask);
    forall id: int ensures id in t.callbacks <==> Unanswered(t, id) {
      assert id in s.callbacks <==> Unanswered(s, id);
      if id == t.generator {
        assert OnlyRaised(t.runs, id);
      } else if 1 <= id <= |s.asked| {
        assert t.asked[id - 1] == s.asked[id - 1];
      }
    }
  }

  lemma {:induction false} RequestsExact(s: State, asks: seq<Ask>)
    requires Matched(s) && Exact(s)
    ensures Exact(Requests(s, asks))
    decreases |asks|
  {
    hide Matched, Exact, Request;
    if asks != [] {
      RequestExact(s, asks[0]);
      RequestExtends(s, asks[0]);
      RequestsExact(Request(s, asks[0]), asks[1..]);
    }
  }

  lemma MessageExact(s: State, r: Received, b: Behaviour)
    requires Matched(s) && Exact(s)
    ensures Exact(OnMessage(s, r, b))
  {
    hide Matched, Requests;
    if r.Answer? && r.id in s.callbacks {
      var run := Run(r.id, s.callbacks[r.id], r.data, b.raises);
      var asked := Requests(s, b.asks);
      RequestsExact(s, b.asks);
      RequestsRuns(s, b.asks);
      RequestsApart(s, b.asks, s.runs + [run]);
      var t := OnMessage(s, r, b);
      assert t.runs == asked.runs + [run] && t.asked == asked.asked;
      forall id: int ensures id in t.callbacks <==> Unanswered(t, id) {
        assert id in asked.callbacks <==> Unanswered(asked, id);
        RunAppended(asked.runs, run, id);
      }
    }
  }

  lemma RunAppended(runs: seq<Run>, run: Run, id: int)
    ensures OnlyRaised(runs + [run], id) <==> OnlyRaised(runs, id) && (run.id == id ==> run.raised)
  {
    if OnlyRaised(runs + [run], id) {
      assert (runs + [run])[|runs|] == run;
      assert forall i | 0 <= i < |runs| :: (runs + [run])[i] == runs[i];
    }
  }

  lemma {:induction false} RunsKeep(steps: seq<Step>)
    ensures Matched(After(START, steps)) && Cleared(After(START, steps)) && Exact(After(START, steps))
  {
    hide Request, OnMessage, Matched, Cleared, Exact;
    if steps == [] {
      StartKeeps();
    } else {
      var before, step := After(START, steps[..|steps| - 1]), steps[|steps| - 1];
      RunsKeep(steps[..|steps| - 1]);
      match step
      case RequestStep(ask) =>
        RequestKeeps(before, ask);
        RequestExact(before, ask);
      case MessageStep(r, b) =>
        MessageKeeps(before, r, b);
        MessageExact(before, r, b);
    }
  }

  lemma StartKeeps()
    ensures Matched(START) && Cleared(START) && Exact(START)
  {
  }

  lemma RequestKeeps(s: State, ask: Ask)
    requires Matched(s) && Cleared(s)
    ensures Matched(Request(s, ask)) && Cleared(Request(s, ask))
  {
    RequestExtends(s, ask);
  }

  /** In every run, whatever the messages: each callback is run for its own
      request only, never for one whose publishing failed, and a callback that
      raised no error is not run again. */
  lemma AnsweredOnce(steps: seq<Step>)
    ensures var s := After(START, steps);
            && (forall i | 0 <= i < |s.runs| :: Own(s, s.runs[i].id, s.runs[i].callback))
            && (forall i, j | 0 <= i < j < |s.runs| && s.runs[i].id == s.runs[j].id :: s.runs[i].raised)
  {
    RunsKeep(steps);
  }

  /** In every run, exactly when a message runs a callback: when it names a
      request that was not one whose publishing failed, and whose callback has
      not been run without an error. Whether the request ever left is not asked. */
  lemma AnswerRuns(steps: seq<Step>, r: Received, b: Behaviour)
    ensures var s := After(START, steps);
            |OnMessage(s, r, b).runs| == |s.runs| + if r.Answer? && Unanswered(s, r.id) then 1 else 0
  {
    hide Matched, Cleared, Requests, Unanswered;
    RunsKeep(steps);
    var s := After(START, steps);
    if r.Answer? && r.id in s.callbacks {
      RequestsRuns(s.(runs := s.runs + [Run(r.id, s.callbacks[r.id], r.data, b.raises)]), b.asks);
    }
  }

  /** A request whose data could not be encoded was never published, and its
      callback is run all the same. */
  lemma UnpublishedAnswered(callback: nat, data: map<Key, Value>)
    ensures
      var steps := [RequestStep(Ask(callback, Unencodable)), MessageStep(Answer(1, data), Behaviour([], false))];
      After(START, steps).runs == [Run(1, callback, data, false)]
  {
    var first, second := RequestStep(Ask(callback, Unencodable)), MessageStep(Answer(1, data), Behaviour([], false));
    assert [first, second][..1] == [first] && [first][..0] == [];
    assert After(START, [first]) == Request(START, Ask(callback, Unencodable));
  }

  /** The same answer twice: the callback is run a second time if and only if the
      first run raised an error. */
  lemma DuplicateAnswer(s: State, r: Received, b: Behaviour, again: Behaviour)
    requires Matched(s) && Cleared(s) && r.Answer? && r.id in s.callbacks
    ensures var once := OnMessage(s, r, b); var twice := OnMessage(once, r, again);
            && |once.runs| == |s.runs| + 1
            && |twice.runs| == |once.runs| + if b.raises then 1 else 0
  {
    var ran := s.(runs := s.runs + [Run(r.id, s.callbacks[r.id], r.data, b.raises)]);
    assert Matched(ran);
    RequestsExtend(ran, b.asks);
    var once := OnMessage(s, r, b);
    MessageKeeps(s, r, b);
    if b.raises {
      RequestsExtend(once.(runs := once.runs + [Run(r.id, once.callbacks[r.id], r.data, again.raises)]), again.asks);
    }
  }

  /** Clearing an entry leaves those of all other requests, and those that the
      callback made. */
  lemma ClearsItsOwn(s: State, r: Received, b: Behaviour)
    requires Matched(s) && Cleared(s) && r.Answer? && r.id in s.callbacks && !b.raises
    ensures var t := OnMessage(s, r, b);
            && t.callbacks == Requests(s, b.asks).callbacks - {r.id}
            && r.id !in t.callbacks
            && (forall id | id in s.callbacks && id != r.id :: id in t.callbacks && t.callbacks[id] == s.callbacks[id])
            && (forall id | id in Requests(s, b.asks).callbacks && id > s.generator :: id in t.callbacks)
  {
    RequestsExtend(s, b.asks);
    RequestsApart(s, b.asks, s.runs + [Run(r.id, s.callbacks[r.id], r.data, b.raises)]);
  }

  lemma {:induction false} RequestsApart(s: State, asks: seq<Ask>, runs: seq<Run>)
    ensures Requests(s.(runs := runs), asks) == Requests(s, asks).(runs := runs)
    decreases |asks|
  {
    if asks != [] {
      assert Request(s.(runs := runs), asks[0]) == Request(s, asks[0]).(runs := runs);
      RequestsApart(Request(s, asks[0]), asks[1..], runs);
    }
  }

  /** An answer that the central server prints with the same codec reaches the
      callback of the request it names, with the rest of its fields. */
  lemma AnswerReaches(s: State, ms: seq<Member>, f: nat, k: nat, other: string -> bool, whole: string -> Option<int>,
      b: Behaviour)
    requires Proper(ObjectTree(ms)) && f < |ms| && k < |ms|
    requires ms[f] == Member("__answer", BoolTree(true)) && ms[k].key == "__answerId" && ms[k].value.NumTree?
             && ms[k].value.n in s.callbacks
    ensures var id, data := ms[k].value.n, Assigned(map[], ms) - {Name("__answer"), Name("__answerId")};
            OnMessage(s, Receive(Print(ObjectTree(ms)), other, whole), b).runs
                == s.runs + [Run(id, s.callbacks[id], data, b.raises)]
  {
    hide Receive, Print, Assigned, Requests, Proper, Own;
    PrintedAnswer(ms, f, k, other, whole);
    var id, data := ms[k].value.n, Assigned(map[], ms) - {Name("__answer"), Name("__answerId")};
    RequestsRuns(s.(runs := s.runs + [Run(id, s.callbacks[id], data, b.raises)]), b.asks);
  }

  lemma PrintedAnswer(ms: seq<Member>, f: nat, k: nat, other: string -> bool, whole: string -> Option<int>)
    requires Proper(ObjectTree(ms)) && f < |ms| && k < |ms|
    requires ms[f] == Member("__answer", BoolTree(true)) && ms[k].key == "__answerId" && ms[k].value.NumTree?
    ensures Receive(Print(ObjectTree(ms)), other, whole)
            == Answer(ms[k].value.n, Assigned(map[], ms) - {Name("__answer"), Name("__answerId")})
  {
    hide Print, Assigned, Decode;
    JsonRoundTrips(ObjectTree(ms), other);
    AssignedAt(map[], ms, Name("__answer"));
    AssignedAt(map[], ms, Name("__answerId"));
    assert Denote(ms[f].value) == Bool(true) && Denote(ms[k].value) == Num(Integer(ms[k].value.n));
    assert Denote(ObjectTree(ms)) == Table(Assigned(map[], ms));
  }

  lemma {:induction false} RequestsRuns(s: State, asks: seq<Ask>)
    ensures Requests(s, asks).runs == s.runs
    decreases |asks|
  {
    if asks != [] {
      RequestsRuns(Request(s, asks[0]), asks[1..]);
    }
  }

  class Login {
    var answerIdGenerator: nat
    var answerCallbacks: map<nat, nat>
    ghost var asked: seq<Ask>
    ghost var runs: seq<Run>

    ghost function Contents(): State
      reads this
    {
      State(answerIdGenerator, answerCallbacks, asked, runs)
    }

    constructor ()
      ensures Contents() == START
    {
      answerIdGenerator, answerCallbacks, asked, runs := 0, map[], [], [];
    }

    /** `ok` is false when an error is raised. */
    method RequestCentralAnswer(callback: nat, outcome: Outcome) returns (ok: bool)
      modifies this
      ensures Contents() == Request(old(Contents()), Ask(callback, outcome)) && ok == (outcome != Unencodable)
    {
      answerIdGenerator := answerIdGenerator + 1;
      answerCallbacks := answerCallbacks[answerIdGenerator := callback];
      asked := asked + [Ask(callback, outcome)];
      if outcome == Unencodable {
        return false;
      }
      if outcome == Unpublished {
        answerCallbacks := answerCallbacks - {answerIdGenerator};
      }
      return true;
    }

    method OnRedisMessage(message: string, other: string -> bool, whole: string -> Option<int>, behaviour: Behaviour)
      requires Possible(behaviour)
      modifies this
      ensures Contents() == OnMessage(old(Contents()), Receive(message, other, whole), behaviour)
    {
      var r := Receive(message, other, whole);
      if r.NoAnswer? || r.id !in answerCallbacks {
        return;
      }
      var callback := answerCallbacks[r.id];
      runs := runs + [Run(r.id, callback, r.data, behaviour.raises)];
      ghost var ran := Contents();
      assert behaviour.asks[..0] == [];
      for i := 0 to |behaviour.asks|
        invariant Requests(Contents(), behaviour.asks[i..]) == Requests(ran, behaviour.asks)
      {
        var ok := RequestCentralAnswer(behaviour.asks[i].callback, behaviour.asks[i].outcome);
        assert behaviour.asks[i..][1..] == behaviour.asks[i + 1..];
      }
      if behaviour.raises {
        return;
      }
      answerCallbacks := answerCallbacks - {r.id};
    }
  }
}
