/**
  The asynchronous filter chain in front of a request handler (operator(), execute_filters and
  handle_end_filters of src/rest/rest_handle.cc; class HTTPFilter of src/rest/http_filter.h).

  Many requests are in progress at once.  What a thread or the io_service has still to do is a
  sequence of tasks, any of which may run next; registering a callback and posting the filter's
  own task are separate steps.  Filters are free: one may report any status, report twice, or
  report about a request it was never given.
 */
module FilterChain {

  import opened Counting

  type Id = string

  const OK: int := 200

  /** What a filter's report will run: the next filter, or the end of the chain. */
  datatype Callback = Continue(next: nat) | Finish

  datatype Task =
    | Execute(id: Id, filter: nat, status: int)   // execute_filters
    | Post(id: Id, filter: nat)                   // callback registered, filter not yet posted
    | Filter(id: Id, filter: nat)                 // handle_request of a filter
    | Report(id: Id, filter: nat, status: int)    // call_to_callback of a filter
    | End(id: Id, status: int)                    // handle_end_filters

  datatype Answer = Handled(id: Id) | Refused(id: Id, code: int)

  /** A report that found its callback. */
  datatype Accepted = Accepted(id: Id, filter: nat, status: int)

  datatype State = State(
    callbacks: seq<map<Id, Callback>>,   // one map per filter
    tasks: seq<Task>,
    arrived: set<Id>,
    accepted: seq<Accepted>,
    answers: seq<Answer>,
    faults: seq<Id>)                     // reports without a callback: an empty function is called

  // ---------- the operations ----------

  /** The HTTP status sent for a filter's status: the codes from 1000 up are internal. */
  function ErrorCode(status: int): int {
    if status == 1000 || status == 1001 || status == 1002 then 400 else status
  }

  function EndFilters(s: State, id: Id, status: int): State {
    s.(answers := s.answers + [if status != OK then Refused(id, ErrorCode(status)) else Handled(id)])
  }

  function CallbackOf(n: nat, k: nat): Callback {
    if k != n - 1 then Continue(k + 1) else Finish
  }

  /** `std::map::insert`: a callback already there stays. */
  function SetAsyncFilter(s: State, k: nat, id: Id, cb: Callback): State
    requires k < |s.callbacks|
  {
    if id in s.callbacks[k] then s
    else s.(callbacks := s.callbacks[k := s.callbacks[k][id := cb]])
  }

  function ExecuteFilters(s: State, id: Id, k: nat, status: int): State
    requires k < |s.callbacks|
  {
    if status != OK then EndFilters(s, id, status)
    else
      var r := SetAsyncFilter(s, k, id, CallbackOf(|s.callbacks|, k));
      r.(tasks := r.tasks + [Post(id, k)])
  }

  function CallToCallback(s: State, k: nat, id: Id, status: int): State
    requires k < |s.callbacks|
  {
    if id !in s.callbacks[k] then s.(faults := s.faults + [id])
    else
      s.(callbacks := s.callbacks[k := s.callbacks[k] - {id}],
         accepted := s.accepted + [Accepted(id, k, status)],
         tasks := s.tasks + [match s.callbacks[k][id]
                             case Continue(next) => Execute(id, next, status)
                             case Finish => End(id, status)])
  }

  /** `operator()`: a new request, with an id of its own. */
  function Arrive(s: State, id: Id): State {
    var r := s.(arrived := s.arrived + {id});
    if |s.callbacks| > 0 then r.(tasks := r.tasks + [Execute(id, 0, OK)]) else EndFilters(r, id, OK)
  }

  // ---------- steps ----------

  datatype Step =
    | New(id: Id)
    | Run(i: nat)                                     // any task but a filter's own
    | FilterReports(i: nat, status: int)              // a filter task runs, and reports once
    | Stray(id: Id, filter: nat, status: int)         // a filter reports again, or unasked

  predicate Enabled(s: State, step: Step) {
    match step
    case New(id) => id !in s.arrived
    case Run(i) =>
      i < |s.tasks| && !s.tasks[i].Filter?
      && (s.tasks[i].End? || s.tasks[i].filter < |s.callbacks|)
    case FilterReports(i, status) => i < |s.tasks| && s.tasks[i].Filter?
    case Stray(id, k, status) => k < |s.callbacks|
  }

  function Next(s: State, step: Step): State
    requires Enabled(s, step)
  {
    match step
    case New(id) => Arrive(s, id)
    case Run(i) =>
      var r := s.(tasks := Without(s.tasks, i));
      (match s.tasks[i]
       case Execute(id, k, status) => ExecuteFilters(r, id, k, status)
       case Post(id, k) => r.(tasks := r.tasks + [Filter(id, k)])
       case Filter(id, k) => r
       case Report(id, k, status) => CallToCallback(r, k, id, status)
       case End(id, status) => EndFilters(r, id, status))
    case FilterReports(i, status) =>
      s.(tasks := Without(s.tasks, i) + [Report(s.tasks[i].id, s.tasks[i].filter, status)])
    case Stray(id, k, status) => s.(tasks := s.tasks + [Report(id, k, status)])
  }

  function Initial(n: nat): State {
    State(seq(n, _ => map[]), [], {}, [], [], [])
  }

  /** The state after a run; steps that are not enabled are skipped. */
  function After(n: nat, steps: seq<Step>): State {
    if steps == [] then Initial(n)
    else
      var s, step := After(n, steps[..|steps| - 1]), steps[|steps| - 1];
      if Enabled(s, step) then Next(s, step) else s
  }

  // ---------- conservation: where a request is ----------

  function ControlOf(id: Id): Task -> bool { (t: Task) => (t.Execute? || t.End?) && t.id == id }
  function Holding(id: Id): map<Id, Callback> -> bool { (m: map<Id, Callback>) => id in m }
  function AnswerTo(id: Id): Answer -> bool { (a: Answer) => a.id == id }

  /** How many times control of a request exists: as a step about to run, as a registered callback,
      or as an answer. */
  function Presence(s: State, id: Id): nat {
    Count(s.tasks, ControlOf(id)) + Count(s.callbacks, Holding(id)) + Count(s.answers, AnswerTo(id))
  }

  function One(b: bool): nat { if b then 1 else 0 }

  lemma PostMoves(s: State, t: Task, id: Id)
    ensures Presence(s.(tasks := s.tasks + [t]), id) == Presence(s, id) + One((t.Execute? || t.End?) && t.id == id)
  {
    CountAppend(s.tasks, t, ControlOf(id));
  }

  lemma TakeMoves(s: State, i: nat, id: Id)
    requires i < |s.tasks|
    ensures var t := s.tasks[i];
            Presence(s, id) == Presence(s.(tasks := Without(s.tasks, i)), id)
                + One((t.Execute? || t.End?) && t.id == id)
  {
    CountWithout(s.tasks, i, ControlOf(id));
  }

  lemma EndMoves(s: State, r: Id, status: int, id: Id)
    ensures Presence(EndFilters(s, r, status), id) == Presence(s, id) + One(r == id)
  {
    CountAppend(s.answers, if status != OK then Refused(r, ErrorCode(status)) else Handled(r), AnswerTo(id));
  }

  lemma ExecuteMoves(s: State, r: Id, k: nat, status: int, id: Id)
    requires k < |s.callbacks| && (r == id ==> Presence(s, id) == 0)
    ensures Presence(ExecuteFilters(s, r, k, status), id) == Presence(s, id) + One(r == id)
  {
    if status != OK {
      EndMoves(s, r, status, id);
    } else {
      if r == id && id in s.callbacks[k] {
        CountPositive(s.callbacks, k, Holding(id));
      }
      CountUpdate(s.callbacks, k, s.callbacks[k][r := CallbackOf(|s.callbacks|, k)], Holding(id));
      PostMoves(SetAsyncFilter(s, k, r, CallbackOf(|s.callbacks|, k)), Post(r, k), id);
    }
  }

  lemma CallMoves(s: State, k: nat, r: Id, status: int, id: Id)
    requires k < |s.callbacks|
    ensures Presence(CallToCallback(s, k, r, status), id) == Presence(s, id)
  {
    if r in s.callbacks[k] {
      CountUpdate(s.callbacks, k, s.callbacks[k] - {r}, Holding(id));
      CountAppend(s.tasks, match s.callbacks[k][r]
                           case Continue(next) => Execute(r, next, status)
                           case Finish => End(r, status), ControlOf(id));
    }
  }

  lemma RunKeepsPresence(s: State, i: nat, id: Id)
    requires Enabled(s, Run(i)) && Presence(s, id) <= 1
    ensures Presence(Next(s, Run(i)), id) == Presence(s, id)
  {
    var t := s.(tasks := Without(s.tasks, i));
    TakeMoves(s, i, id);
    match s.tasks[i]
    case Execute(r, k, status) => ExecuteMoves(t, r, k, status, id);
    case Post(r, k) => PostMoves(t, Filter(r, k), id);
    case Report(r, k, status) => CallMoves(t, k, r, status, id);
    case End(r, status) => EndMoves(t, r, status, id);
  }

  lemma PresenceKept(s: State, step: Step, id: Id)
    requires Enabled(s, step) && Presence(s, id) == One(id in s.arrived)
    ensures Presence(Next(s, step), id) == One(id in Next(s, step).arrived)
  {
    match step
    case New(r) =>
      var t := s.(arrived := s.arrived + {r});
      PostMoves(t, Execute(r, 0, OK), id);
      EndMoves(t, r, OK, id);
    case Run(i) => RunKeepsPresence(s, i, id);
    case FilterReports(i, status) =>
      TakeMoves(s, i, id);
      PostMoves(s.(tasks := Without(s.tasks, i)), Report(s.tasks[i].id, s.tasks[i].filter, status), id);
    case Stray(r, k, status) =>
      PostMoves(s, Report(r, k, status), id);
  }

  // ---------- the story of a request ----------

  /** The accepted reports about one request, in order. */
  function Project(log: seq<Accepted>, id: Id): seq<Accepted> {
    if log == [] then []
    else
      var n := |log| - 1;
      Project(log[..n], id) + if log[n].id == id then [log[n]] else []
  }

  /** Filters 0 to k - 1 passed the request, in that order. */
  function Passed(id: Id, k: nat): seq<Accepted> {
    seq(k, j requires 0 <= j < k => Accepted(id, j, OK))
  }

  /** ... and then filter k reported `status`. */
  function PassedThen(id: Id, k: nat, status: int): seq<Accepted> {
    Passed(id, k) + [Accepted(id, k, status)]
  }

  /** What must have been accepted about a request for a task that controls it to exist. */
  predicate TaskStory(n: nat, t: Task, log: seq<Accepted>) {
    match t
    case Execute(id, k, status) =>
      k < n && if status == OK then log == Passed(id, k) else k > 0 && log == PassedThen(id, k - 1, status)
    case End(id, status) => n > 0 && log == PassedThen(id, n - 1, status)
    case _ => true
  }

  /** ... and for an answer: the handler ran after every filter passed, or the first filter that did
      not pass it decided the error. */
  ghost predicate AnswerStory(n: nat, a: Answer, log: seq<Accepted>) {
    match a
    case Handled(id) => log == Passed(id, n)
    case Refused(id, code) =>
      exists k: nat, status :: k < n && status != OK && code == ErrorCode(status) && log == PassedThen(id, k, status)
  }

  ghost predicate Story(s: State, id: Id) {
    var n, log := |s.callbacks|, Project(s.accepted, id);
    && (forall i :: 0 <= i < |s.tasks| && ControlOf(id)(s.tasks[i]) ==> TaskStory(n, s.tasks[i], log))
    && (forall k :: 0 <= k < n && id in s.callbacks[k] ==>
        s.callbacks[k][id] == CallbackOf(n, k) && log == Passed(id, k))
    && (forall i :: 0 <= i < |s.answers| && s.answers[i].id == id ==> AnswerStory(n, s.answers[i], log))
    && (id !in s.arrived ==> log == [])
  }

  lemma PostStory(s: State, t: Task, id: Id)
    requires Story(s, id) && (ControlOf(id)(t) ==> TaskStory(|s.callbacks|, t, Project(s.accepted, id)))
    ensures Story(s.(tasks := s.tasks + [t]), id)
  {}

  lemma TakeStory(s: State, i: nat, id: Id)
    requires Story(s, id) && i < |s.tasks|
    ensures Story(s.(tasks := Without(s.tasks, i)), id)
  {}

  lemma LastPassed(id: Id, k: nat)
    ensures PassedThen(id, k, OK) == Passed(id, k + 1)
  {}

  lemma EndStory(s: State, r: Id, status: int, id: Id)
    requires Story(s, id)
    requires r == id ==> AnswerStory(|s.callbacks|, if status != OK then Refused(r, ErrorCode(status)) else Handled(r),
                                     Project(s.accepted, id))
    ensures Story(EndFilters(s, r, status), id)
  {}

  lemma ExecuteStory(s: State, r: Id, k: nat, status: int, id: Id)
    requires k < |s.callbacks| && Story(s, id)
    requires r == id ==> TaskStory(|s.callbacks|, Execute(r, k, status), Project(s.accepted, id))
    ensures Story(ExecuteFilters(s, r, k, status), id)
  {
    if status != OK {
      EndStory(s, r, status, id);
    } else {
      var t := SetAsyncFilter(s, k, r, CallbackOf(|s.callbacks|, k));
      assert Story(t, id);
      PostStory(t, Post(r, k), id);
    }
  }

  /** Taking its callback leaves a request nowhere else. */
  lemma CallbackIsAll(s: State, k: nat, id: Id)
    requires k < |s.callbacks| && id in s.callbacks[k] && Presence(s, id) == One(id in s.arrived)
    ensures id in s.arrived
    ensures forall i :: 0 <= i < |s.tasks| ==> !ControlOf(id)(s.tasks[i])
    ensures forall i :: 0 <= i < |s.answers| ==> s.answers[i].id != id
    ensures forall j :: 0 <= j < |s.callbacks| && j != k ==> id !in s.callbacks[j]
  {
    CountPositive(s.callbacks, k, Holding(id));
    NoneIfZero(s.tasks, ControlOf(id));
    NoneIfZero(s.answers, AnswerTo(id));
    forall i | 0 <= i < |s.answers| ensures s.answers[i].id != id {
      assert !AnswerTo(id)(s.answers[i]);
    }
    forall j | 0 <= j < |s.callbacks| && j != k ensures id !in s.callbacks[j] {
      if id in s.callbacks[j] {
        CountTwo(s.callbacks, if j < k then j else k, if j < k then k else j, Holding(id));
      }
    }
  }

  lemma ProjectLast(log: seq<Accepted>, x: Accepted, id: Id)
    ensures Project(log + [x], id) == Project(log, id) + if x.id == id then [x] else []
  {
    assert (log + [x])[..|log|] == log;
  }

  /** Another request's callback is taken: this one's story is the same. */
  lemma OthersTakenStory(s: State, k: nat, x: Accepted, id: Id)
    requires k < |s.callbacks| && Story(s, id) && x.id != id
    ensures Story(s.(callbacks := s.callbacks[k := s.callbacks[k] - {x.id}], accepted := s.accepted + [x]), id)
  {
    ProjectLast(s.accepted, x, id);
    var callbacks := s.callbacks[k := s.callbacks[k] - {x.id}];
    assert forall j :: 0 <= j < |s.callbacks| && id in callbacks[j] ==>
        id in s.callbacks[j] && callbacks[j][id] == s.callbacks[j][id];
  }

  lemma OthersCallStory(s: State, k: nat, r: Id, status: int, id: Id)
    requires k < |s.callbacks| && Story(s, id) && r != id && r in s.callbacks[k]
    ensures Story(CallToCallback(s, k, r, status), id)
  {
    var x := Accepted(r, k, status);
    OthersTakenStory(s, k, x, id);
    var taken := s.(callbacks := s.callbacks[k := s.callbacks[k] - {r}], accepted := s.accepted + [x]);
    var t := CallToCallback(s, k, r, status);
    PostStory(taken, t.tasks[|s.tasks|], id);
  }

  lemma OwnCallStory(s: State, k: nat, id: Id, status: int)
    requires k < |s.callbacks| && Story(s, id) && Presence(s, id) == One(id in s.arrived)
    requires id in s.callbacks[k]
    ensures Story(CallToCallback(s, k, id, status), id)
  {
    CallbackIsAll(s, k, id);
    ProjectLast(s.accepted, Accepted(id, k, status), id);
    LastPassed(id, k);
    var t := CallToCallback(s, k, id, status);
    var last := t.tasks[|s.tasks|];
    assert Project(t.accepted, id) == PassedThen(id, k, status);
    assert TaskStory(|s.callbacks|, last, Project(t.accepted, id));
    assert forall i :: 0 <= i < |s.tasks| ==> t.tasks[i] == s.tasks[i];
    assert forall j :: 0 <= j < |t.callbacks| ==> id !in t.callbacks[j];
  }

  lemma CallStory(s: State, k: nat, r: Id, status: int, id: Id)
    requires k < |s.callbacks| && Story(s, id) && Presence(s, id) == One(id in s.arrived)
    ensures Story(CallToCallback(s, k, r, status), id)
  {
    if r in s.callbacks[k] {
      if r == id {
        OwnCallStory(s, k, id, status);
      } else {
        OthersCallStory(s, k, r, status, id);
      }
    }
  }

  lemma RunKeepsStory(s: State, i: nat, id: Id)
    requires Enabled(s, Run(i)) && Story(s, id) && Presence(s, id) == One(id in s.arrived)
    ensures Story(Next(s, Run(i)), id)
  {
    var t := s.(tasks := Without(s.tasks, i));
    TakeStory(s, i, id);
    TakeMoves(s, i, id);
    match s.tasks[i]
    case Execute(r, k, status) => ExecuteStory(t, r, k, status, id);
    case Post(r, k) => PostStory(t, Filter(r, k), id);
    case Report(r, k, status) => CallStory(t, k, r, status, id);
    case End(r, status) =>
      if r == id {
        LastPassed(r, |s.callbacks| - 1);
      }
      EndStory(t, r, status, id);
  }

  lemma StoryKept(s: State, step: Step, id: Id)
    requires Enabled(s, step) && Story(s, id) && Presence(s, id) == One(id in s.arrived)
    ensures Story(Next(s, step), id)
  {
    match step
    case New(r) =>
      var t := s.(arrived := s.arrived + {r});
      assert Passed(r, 0) == [];
      if |s.callbacks| > 0 {
        PostStory(t, Execute(r, 0, OK), id);
      } else {
        EndStory(t, r, OK, id);
      }
    case Run(i) => RunKeepsStory(s, i, id);
    case FilterReports(i, status) =>
      TakeStory(s, i, id);
      PostStory(s.(tasks := Without(s.tasks, i)), Report(s.tasks[i].id, s.tasks[i].filter, status), id);
    case Stray(r, k, status) =>
      PostStory(s, Report(r, k, status), id);
  }

  // ---------- whole runs, whatever the filters do ----------

  /** Every filter number and callback is in range, so that every task but a filter's own can run. */
  ghost predicate InRange(s: State) {
    && (forall i :: 0 <= i < |s.tasks| && !s.tasks[i].End? ==> s.tasks[i].filter < |s.callbacks|)
    && (forall k, id :: 0 <= k < |s.callbacks| && id in s.callbacks[k] ==>
        s.callbacks[k][id] == CallbackOf(|s.callbacks|, k))
  }

  lemma InRangeKept(s: State, step: Step)
    requires Enabled(s, step) && InRange(s)
    ensures InRange(Next(s, step)) && |Next(s, step).callbacks| == |s.callbacks|
  {}

  /** In every run each request is present exactly once, has its story, and no index is out of range. */
  lemma {:induction false} RunSafe(n: nat, steps: seq<Step>, id: Id)
    ensures var s := After(n, steps);
            |s.callbacks| == n && InRange(s) && Presence(s, id) == One(id in s.arrived) && Story(s, id)
  {
    if steps == [] {
      CountZero(Initial(n).callbacks, Holding(id));
    } else {
      var s, step := After(n, steps[..|steps| - 1]), steps[|steps| - 1];
      RunSafe(n, steps[..|steps| - 1], id);
      if Enabled(s, step) {
        InRangeKept(s, step);
        PresenceKept(s, step, id);
        StoryKept(s, step, id);
      }
    }
  }

  /** The handler of a request runs only after filters 0 to n - 1 each reported 200 for it, in that
      order; an error is sent only after the first filter that reported otherwise. */
  lemma AnswerJustified(n: nat, steps: seq<Step>, i: nat)
    requires i < |After(n, steps).answers|
    ensures var s := After(n, steps); var a := s.answers[i];
            AnswerStory(n, a, Project(s.accepted, a.id))
  {
    RunSafe(n, steps, After(n, steps).answers[i].id);
  }

  /** Each request gets at most one answer, handler run or error, even if filters report twice. */
  lemma OneAnswer(n: nat, steps: seq<Step>, i: nat, j: nat)
    requires i < j < |After(n, steps).answers|
    ensures After(n, steps).answers[i].id != After(n, steps).answers[j].id
  {
    var s := After(n, steps);
    var id := s.answers[i].id;
    RunSafe(n, steps, id);
    if s.answers[j].id == id {
      CountTwo(s.answers, i, j, AnswerTo(id));
    }
  }

  // ---------- filters that report once ----------

  function TaskOf(id: Id): Task -> bool { (t: Task) => t.id == id }

  /** Tasks and answers of a request. */
  function Tokens(s: State, id: Id): nat {
    Count(s.tasks, TaskOf(id)) + Count(s.answers, AnswerTo(id))
  }

  predicate Waits(s: State, t: Task) {
    t.Post? || t.Filter? || t.Report? ==> t.filter < |s.callbacks| && t.id in s.callbacks[t.filter]
  }

  /** One task or answer per request, every task on a filter with its callback in place, no fault. */
  ghost predicate Orderly(s: State) {
    && s.faults == []
    && (forall i :: 0 <= i < |s.tasks| ==> Waits(s, s.tasks[i]))
    && (forall id :: Tokens(s, id) == One(id in s.arrived))
  }

  lemma OnlyTask(s: State, i: nat, j: nat)
    requires i < |s.tasks| && j < |s.tasks| && i != j && Tokens(s, s.tasks[i].id) <= 1
    ensures s.tasks[i].id != s.tasks[j].id
  {
    if s.tasks[i].id == s.tasks[j].id {
      CountTwo(s.tasks, if i < j then i else j, if i < j then j else i, TaskOf(s.tasks[i].id));
    }
  }

  lemma ReplaceToken(s: State, i: nat, t: Task, id: Id)
    requires i < |s.tasks| && t.id == s.tasks[i].id
    ensures Count(Without(s.tasks, i) + [t], TaskOf(id)) == Count(s.tasks, TaskOf(id))
  {
    CountWithout(s.tasks, i, TaskOf(id));
    CountAppend(Without(s.tasks, i), t, TaskOf(id));
  }

  lemma TokenToAnswer(s: State, i: nat, a: Answer, id: Id)
    requires i < |s.tasks| && a.id == s.tasks[i].id
    ensures Count(Without(s.tasks, i), TaskOf(id)) + Count(s.answers + [a], AnswerTo(id)) == Tokens(s, id)
  {
    CountWithout(s.tasks, i, TaskOf(id));
    CountAppend(s.answers, a, AnswerTo(id));
  }

  lemma RunKeepsTokens(s: State, i: nat, id: Id)
    requires Enabled(s, Run(i)) && InRange(s) && Waits(s, s.tasks[i])
    ensures Tokens(Next(s, Run(i)), id) == Tokens(s, id)
  {
    match s.tasks[i]
    case Execute(r, k, status) =>
      ReplaceToken(s, i, Post(r, k), id);
      TokenToAnswer(s, i, Refused(r, ErrorCode(status)), id);
    case Post(r, k) => ReplaceToken(s, i, Filter(r, k), id);
    case Report(r, k, status) =>
      ReplaceToken(s, i, match s.callbacks[k][r]
                         case Continue(next) => Execute(r, next, status)
                         case Finish => End(r, status), id);
    case End(r, status) =>
      TokenToAnswer(s, i, if status != OK then Refused(r, ErrorCode(status)) else Handled(r), id);
  }

  lemma TokensKept(s: State, step: Step, id: Id)
    requires Enabled(s, step) && Orderly(s) && InRange(s) && !step.Stray?
    ensures Tokens(Next(s, step), id) == One(id in Next(s, step).arrived)
  {
    match step
    case New(r) =>
      CountAppend(s.tasks, Execute(r, 0, OK), TaskOf(id));
      CountAppend(s.answers, Handled(r), AnswerTo(id));
    case FilterReports(i, status) =>
      ReplaceToken(s, i, Report(s.tasks[i].id, s.tasks[i].filter, status), id);
    case Run(i) => RunKeepsTokens(s, i, id);
  }

  lemma WaitsKept(s: State, step: Step)
    requires Enabled(s, step) && Orderly(s) && InRange(s) && !step.Stray?
    ensures Next(s, step).faults == []
    ensures forall i :: 0 <= i < |Next(s, step).tasks| ==> Waits(Next(s, step), Next(s, step).tasks[i])
  {
    if step.Run? && s.tasks[step.i].Report? {
      var t := s.tasks[step.i];
      assert Waits(s, t) && t.id in s.callbacks[t.filter];
      forall j | 0 <= j < |s.tasks| && j != step.i ensures s.tasks[j].id != t.id {
        OnlyTask(s, step.i, j);
      }
    } else if step.FilterReports? {
      assert Waits(s, s.tasks[step.i]);
    } else if step.Run? && s.tasks[step.i].Post? {
      assert Waits(s, s.tasks[step.i]);
    }
  }

  /** Runs in which every filter task reports once and nothing else reports. */
  predicate Disciplined(steps: seq<Step>) { forall i :: 0 <= i < |steps| ==> !steps[i].Stray? }

  lemma {:induction false} DisciplinedRun(n: nat, steps: seq<Step>)
    requires Disciplined(steps)
    ensures Orderly(After(n, steps)) && InRange(After(n, steps)) && |After(n, steps).callbacks| == n
  {
    RunSafe(n, steps, "");
    if steps != [] {
      var s, step := After(n, steps[..|steps| - 1]), steps[|steps| - 1];
      DisciplinedRun(n, steps[..|steps| - 1]);
      if Enabled(s, step) {
        WaitsKept(s, step);
        forall id ensures Tokens(Next(s, step), id) == One(id in Next(s, step).arrived) {
          TokensKept(s, step, id);
        }
      }
    }
  }

  predicate WaitsAt(t: Task, id: Id, k: nat) {
    t.id == id && (t.Post? || t.Filter? || t.Report?) && t.filter == k
  }

  /** In such a run filter k's callback map holds exactly the requests waiting on filter k: those
      with a task to post to it, in it, or reporting from it.  Each has exactly one, and no request
      that waits is answered. */
  lemma CallbacksAreWaiting(n: nat, steps: seq<Step>, k: nat, id: Id)
    requires Disciplined(steps) && k < n
    ensures var s := After(n, steps);
            && |s.callbacks| == n
            && (id in s.callbacks[k] <==> exists i :: 0 <= i < |s.tasks| && WaitsAt(s.tasks[i], id, k))
            && (id in s.callbacks[k] ==> Count(s.tasks, TaskOf(id)) == 1 && Count(s.answers, AnswerTo(id)) == 0)
  {
    var s := After(n, steps);
    DisciplinedRun(n, steps);
    RunSafe(n, steps, id);
    if i: nat :| i < |s.tasks| && WaitsAt(s.tasks[i], id, k) {
      assert Waits(s, s.tasks[i]);
    }
    if id in s.callbacks[k] {
      CallbackIsAll(s, k, id);
      CountPositive(s.callbacks, k, Holding(id));
      var i := CountWitness(s.tasks, TaskOf(id));
      assert !ControlOf(id)(s.tasks[i]) && Waits(s, s.tasks[i]);
      assert WaitsAt(s.tasks[i], id, k);
    }
  }

  // ---------- every request is answered ----------

  /** What a task has still ahead of it, in a chain of n filters. */
  function Weight(n: nat, t: Task): nat {
    match t
    case Execute(id, k, status) => if k < n then 4 * (n - k) + 1 else 1
    case Post(id, k) => if k < n then 4 * (n - k) else 0
    case Filter(id, k) => if k < n then 4 * (n - k) - 1 else 0
    case Report(id, k, status) => if k < n then 4 * (n - k) - 2 else 0
    case End(id, status) => 1
  }

  function Measure(n: nat, tasks: seq<Task>): nat {
    if tasks == [] then 0 else Measure(n, tasks[..|tasks| - 1]) + Weight(n, tasks[|tasks| - 1])
  }

  lemma MeasureAppend(n: nat, tasks: seq<Task>, t: Task)
    ensures Measure(n, tasks + [t]) == Measure(n, tasks) + Weight(n, t)
  {
    assert (tasks + [t])[..|tasks|] == tasks;
  }

  lemma {:induction false} MeasureWithout(n: nat, tasks: seq<Task>, i: nat)
    requires i < |tasks|
    ensures Measure(n, tasks) == Measure(n, Without(tasks, i)) + Weight(n, tasks[i])
  {
    var m := |tasks| - 1;
    if i < m {
      MeasureWithout(n, tasks[..m], i);
      assert Without(tasks, i)[..m - 1] == Without(tasks[..m], i);
    } else {
      assert Without(tasks, i) == tasks[..m];
    }
  }

  lemma ReplaceDescends(n: nat, tasks: seq<Task>, i: nat, t: Task)
    requires i < |tasks| && Weight(n, t) < Weight(n, tasks[i])
    ensures Measure(n, Without(tasks, i) + [t]) < Measure(n, tasks)
  {
    MeasureWithout(n, tasks, i);
    MeasureAppend(n, Without(tasks, i), t);
  }

  lemma ReportDescends(s: State, i: nat)
    requires i < |s.tasks| && s.tasks[i].Report? && InRange(s) && Waits(s, s.tasks[i])
    ensures Measure(|s.callbacks|, Next(s, Run(i)).tasks) < Measure(|s.callbacks|, s.tasks)
  {
    var t := s.tasks[i];
    ReplaceDescends(|s.callbacks|, s.tasks, i, match s.callbacks[t.filter][t.id]
                                               case Continue(next) => Execute(t.id, next, t.status)
                                               case Finish => End(t.id, t.status));
  }

  /** Every step but an arrival or a stray report brings the work left down. */
  lemma StepDescends(s: State, step: Step)
    requires Enabled(s, step) && InRange(s) && Orderly(s) && !step.New? && !step.Stray?
    ensures Measure(|s.callbacks|, Next(s, step).tasks) < Measure(|s.callbacks|, s.tasks)
  {
    var n, i := |s.callbacks|, step.i;
    match s.tasks[i]
    case Execute(id, k, status) =>
      if status == OK {
        ReplaceDescends(n, s.tasks, i, Post(id, k));
      } else {
        MeasureWithout(n, s.tasks, i);
      }
    case Post(id, k) => ReplaceDescends(n, s.tasks, i, Filter(id, k));
    case Filter(id, k) => ReplaceDescends(n, s.tasks, i, Report(id, k, step.status));
    case Report(id, k, status) =>
      assert Waits(s, s.tasks[i]);
      ReportDescends(s, i);
    case End(id, status) => MeasureWithout(n, s.tasks, i);
  }

  /** While anything is left to do, something can be done. */
  lemma NotStuck(s: State)
    requires InRange(s) && s.tasks != []
    ensures Enabled(s, if s.tasks[0].Filter? then FilterReports(0, OK) else Run(0))
  {}

  /** When nothing is left to do, every request that arrived has been answered exactly once. */
  lemma QuietMeansAnswered(n: nat, steps: seq<Step>, id: Id)
    requires Disciplined(steps) && After(n, steps).tasks == []
    ensures Count(After(n, steps).answers, AnswerTo(id)) == One(id in After(n, steps).arrived)
  {
    DisciplinedRun(n, steps);
    assert Tokens(After(n, steps), id) == One(id in After(n, steps).arrived);
  }

  predicate Works(s: State, step: Step) { Enabled(s, step) && !step.New? && !step.Stray? }

  /** Each of the further steps could be taken when its turn came. */
  predicate AllWork(n: nat, steps: seq<Step>, more: seq<Step>) {
    more == []
    || (AllWork(n, steps, more[..|more| - 1]) && Works(After(n, steps + more[..|more| - 1]), more[|more| - 1]))
  }

  function Left(n: nat, steps: seq<Step>): nat { Measure(n, After(n, steps).tasks) }

  lemma OneStepLess(n: nat, steps: seq<Step>, step: Step)
    requires Disciplined(steps) && Works(After(n, steps), step)
    ensures Left(n, steps + [step]) < Left(n, steps)
  {
    DisciplinedRun(n, steps);
    StepDescends(After(n, steps), step);
    assert (steps + [step])[..|steps|] == steps;
  }

  /** Without arrivals, a run of a disciplined chain stops within its measure: no request waits for ever. */
  lemma {:induction false} RunStops(n: nat, steps: seq<Step>, more: seq<Step>)
    requires Disciplined(steps) && AllWork(n, steps, more)
    ensures Disciplined(steps + more)
    ensures |more| + Left(n, steps + more) <= Left(n, steps)
  {
    if more == [] {
      assert steps + more == steps;
    } else {
      var front, last := more[..|more| - 1], more[|more| - 1];
      RunStops(n, steps, front);
      OneStepLess(n, steps + front, last);
      assert steps + more == steps + front + [last];
    }
  }
}
