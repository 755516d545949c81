/**
  What answers mean in terms of the steps of a run of FilterChain: which filter reported what, and which step
  did it.  200 is the status a filter passes a request with; the internal codes 1000 to 1002 are sent as 400.
 */
module FilterRuns {

  import opened Counting
  import opened FilterChain

  /** The state before step k of a run. */
  function Before(n: nat, steps: seq<Step>, k: nat): State
    requires k <= |steps|
  {
    After(n, steps[..k])
  }

  lemma StepAt(n: nat, steps: seq<Step>, k: nat)
    requires k < |steps|
    ensures var s := Before(n, steps, k);
            Before(n, steps, k + 1) == if Enabled(s, steps[k]) then Next(s, steps[k]) else s
  {
    assert steps[..k + 1][..k] == steps[..k];
  }

  /** Step j is a report of filter k about a request: by the filter's own task, or unasked. */
  predicate Reports(n: nat, steps: seq<Step>, j: nat, id: Id, k: nat, status: int)
    requires j < |steps|
  {
    var s := Before(n, steps, j);
    || FilterReported(s, steps[j], id, k, status)
    || (steps[j] == Stray(id, k, status) && k < |s.callbacks|)
  }

  predicate FilterReported(s: State, step: Step, id: Id, k: nat, status: int) {
    step.FilterReports? && step.status == status && step.i < |s.tasks| && s.tasks[step.i] == Filter(id, k)
  }

  ghost predicate ReportedBefore(n: nat, steps: seq<Step>, m: nat, id: Id, k: nat, status: int)
    requires m <= |steps|
  {
    exists j :: 0 <= j < m && Reports(n, steps, j, id, k, status)
  }

  lemma NewReport(s: State, step: Step, t: Task)
    requires Enabled(s, step) && t.Report? && t in Next(s, step).tasks && t !in s.tasks
    ensures FilterReported(s, step, t.id, t.filter, t.status)
            || (step == Stray(t.id, t.filter, t.status) && t.filter < |s.callbacks|)
  {
  }

  lemma NewAccepted(s: State, step: Step, x: Accepted)
    requires Enabled(s, step) && x in Next(s, step).accepted && x !in s.accepted
    ensures Report(x.id, x.filter, x.status) in s.tasks
  {
  }

  lemma {:induction false} ReportTaskReported(n: nat, steps: seq<Step>, m: nat, t: Task)
    requires m <= |steps| && t.Report? && t in Before(n, steps, m).tasks
    ensures ReportedBefore(n, steps, m, t.id, t.filter, t.status)
    decreases m
  {
    StepAt(n, steps, m - 1);
    if t in Before(n, steps, m - 1).tasks {
      ReportTaskReported(n, steps, m - 1, t);
    } else {
      NewReport(Before(n, steps, m - 1), steps[m - 1], t);
      assert Reports(n, steps, m - 1, t.id, t.filter, t.status);
    }
  }

  /** Every report accepted was made, about that request, by that filter and with that status, in an earlier step. */
  lemma {:induction false} AcceptedReported(n: nat, steps: seq<Step>, m: nat, x: Accepted)
    requires m <= |steps| && x in Before(n, steps, m).accepted
    ensures ReportedBefore(n, steps, m, x.id, x.filter, x.status)
    decreases m
  {
    StepAt(n, steps, m - 1);
    if x in Before(n, steps, m - 1).accepted {
      AcceptedReported(n, steps, m - 1, x);
    } else {
      NewAccepted(Before(n, steps, m - 1), steps[m - 1], x);
      ReportTaskReported(n, steps, m - 1, Report(x.id, x.filter, x.status));
    }
  }

  lemma {:induction false} ProjectIn(log: seq<Accepted>, id: Id, x: Accepted)
    requires x in Project(log, id)
    ensures x in log && x.id == id
  {
    var front := log[..|log| - 1];
    if x in Project(front, id) {
      ProjectIn(front, id, x);
    }
  }

  /** A prefix of the story of a request: its first k filters passed it. */
  lemma PassedReported(n: nat, steps: seq<Step>, id: Id, log: seq<Accepted>, k: nat)
    requires log == Project(After(n, steps).accepted, id) && Passed(id, k) <= log
    ensures forall f :: 0 <= f < k ==> ReportedBefore(n, steps, |steps|, id, f, 200)
  {
    assert steps[..|steps|] == steps;
    forall f | 0 <= f < k ensures ReportedBefore(n, steps, |steps|, id, f, 200) {
      assert log[f] == Passed(id, k)[f] == Accepted(id, f, 200);
      ProjectIn(After(n, steps).accepted, id, log[f]);
      AcceptedReported(n, steps, |steps|, log[f]);
    }
  }

  /** The handler of a request runs only if each of the n filters reported 200 for it in some step. */
  lemma HandledMeansPassed(n: nat, steps: seq<Step>, id: Id)
    requires Handled(id) in After(n, steps).answers
    ensures forall k :: 0 <= k < n ==> ReportedBefore(n, steps, |steps|, id, k, 200)
  {
    var s := After(n, steps);
    var i :| 0 <= i < |s.answers| && s.answers[i] == Handled(id);
    AnswerJustified(n, steps, i);
    PassedReported(n, steps, id, Project(s.accepted, id), n);
  }

  /** What an error sent stands for. */
  predicate StandsFor(code: int, status: int) {
    code == if status == 1000 || status == 1001 || status == 1002 then 400 else status
  }

  /** The first filter that did not report 200 reported, in some step, the status the error stands for. */
  ghost predicate FailedAt(n: nat, steps: seq<Step>, id: Id, code: int, k: nat, status: int) {
    && k < n && status != 200 && StandsFor(code, status)
    && ReportedBefore(n, steps, |steps|, id, k, status)
    && forall f :: 0 <= f < k ==> ReportedBefore(n, steps, |steps|, id, f, 200)
  }

  /** An error is sent only if some filter reported another status than 200, the one the error stands for, and the
      filters before it reported 200. */
  lemma RefusedMeansFailed(n: nat, steps: seq<Step>, id: Id, code: int)
    requires Refused(id, code) in After(n, steps).answers
    ensures exists k: nat, status :: FailedAt(n, steps, id, code, k, status)
  {
    var s := After(n, steps);
    var i :| 0 <= i < |s.answers| && s.answers[i] == Refused(id, code);
    AnswerJustified(n, steps, i);
    var log := Project(s.accepted, id);
    var k: nat, status :| k < n && status != OK && code == ErrorCode(status) && log == PassedThen(id, k, status);
    assert log[..k] == Passed(id, k) && log[k] == Accepted(id, k, status);
    PassedReported(n, steps, id, log, k);
    ProjectIn(s.accepted, id, log[k]);
    assert steps[..|steps|] == steps;
    AcceptedReported(n, steps, |steps|, log[k]);
    assert FailedAt(n, steps, id, code, k, status);
  }

  /** When nothing reports unasked, every report is made by the filter's own task. */
  lemma ReportsAreTheFilters(n: nat, steps: seq<Step>, m: nat, id: Id, k: nat, status: int)
    requires m <= |steps| && Disciplined(steps) && ReportedBefore(n, steps, m, id, k, status)
    ensures exists j :: 0 <= j < m && FilterReported(Before(n, steps, j), steps[j], id, k, status)
  {
    var j :| 0 <= j < m && Reports(n, steps, j, id, k, status);
    assert !steps[j].Stray?;
  }

  // ---------- filters that report once ----------

  lemma OtherStays(tasks: seq<Task>, i: nat, j: nat)
    requires i < |tasks| && j < |tasks| && i != j
    ensures tasks[i] in Without(tasks, j)
  {
    assert Without(tasks, j)[if i < j then i else i - 1] == tasks[i];
  }

  lemma ReportStep(s: State, step: Step, t: Task)
    requires Enabled(s, step) && InRange(s) && Orderly(s) && t.Report? && t in s.tasks
    ensures t in Next(s, step).tasks || Accepted(t.id, t.filter, t.status) in Next(s, step).accepted
  {
    var i :| 0 <= i < |s.tasks| && s.tasks[i] == t;
    if step.Run? && step.i == i {
      assert Waits(s, t);
      var after := Next(s, step).accepted;
      assert after[|after| - 1] == Accepted(t.id, t.filter, t.status);
    } else if step.Run? || step.FilterReports? {
      OtherStays(s.tasks, i, step.i);
    }
  }

  lemma AcceptedStays(s: State, step: Step, x: Accepted)
    requires Enabled(s, step) && x in s.accepted
    ensures x in Next(s, step).accepted
  {
  }

  /** The report is due or accepted. */
  predicate Arrived(s: State, t: Task) {
    t.Report? && (t in s.tasks || Accepted(t.id, t.filter, t.status) in s.accepted)
  }

  lemma ArrivedStays(s: State, step: Step, t: Task)
    requires Enabled(s, step) && InRange(s) && Orderly(s) && Arrived(s, t)
    ensures Arrived(Next(s, step), t)
  {
    if t in s.tasks {
      ReportStep(s, step, t);
    } else {
      AcceptedStays(s, step, Accepted(t.id, t.filter, t.status));
    }
  }

  lemma ReportArrives(s: State, step: Step, id: Id, k: nat, status: int)
    requires Enabled(s, step) && step.FilterReports? && FilterReported(s, step, id, k, status)
    ensures Arrived(Next(s, step), Report(id, k, status))
  {
    assert Next(s, step).tasks[|s.tasks| - 1] == Report(id, k, status);
  }

  lemma ArrivedOn(n: nat, steps: seq<Step>, m: nat, t: Task)
    requires m < |steps| && Disciplined(steps) && Arrived(Before(n, steps, m), t)
    ensures Arrived(Before(n, steps, m + 1), t)
  {
    StepAt(n, steps, m);
    DisciplinedRun(n, steps[..m]);
    if Enabled(Before(n, steps, m), steps[m]) {
      ArrivedStays(Before(n, steps, m), steps[m], t);
    }
  }

  /** A report made stays due until it is accepted. */
  lemma {:induction false} ReportCarried(n: nat, steps: seq<Step>, j: nat, m: nat, id: Id, k: nat, status: int)
    requires j < m <= |steps| && Disciplined(steps) && FilterReported(Before(n, steps, j), steps[j], id, k, status)
    ensures Arrived(Before(n, steps, m), Report(id, k, status))
    decreases m
  {
    if m == j + 1 {
      StepAt(n, steps, j);
      ReportArrives(Before(n, steps, j), steps[j], id, k, status);
    } else {
      ReportCarried(n, steps, j, m - 1, id, k, status);
      ArrivedOn(n, steps, m - 1, Report(id, k, status));
    }
  }

  lemma {:induction false} InProject(log: seq<Accepted>, x: Accepted)
    requires x in log
    ensures x in Project(log, x.id)
  {
    var n := |log| - 1;
    assert log == log[..n] + [log[n]];
    if x in log[..n] {
      InProject(log[..n], x);
    }
  }

  lemma AnsweredHasNoTask(s: State, t: Task)
    requires Orderly(s) && t in s.tasks
    ensures Handled(t.id) !in s.answers
  {
    if Handled(t.id) in s.answers {
      var i :| 0 <= i < |s.tasks| && s.tasks[i] == t;
      var j :| 0 <= j < |s.answers| && s.answers[j] == Handled(t.id);
      TwoTokens(s, i, j, t.id);
    }
  }

  lemma TwoTokens(s: State, i: nat, j: nat, id: Id)
    requires i < |s.tasks| && s.tasks[i].id == id && j < |s.answers| && s.answers[j].id == id
    ensures Tokens(s, id) >= 2
  {
    CountPositive(s.tasks, i, TaskOf(id));
    CountPositive(s.answers, j, AnswerTo(id));
  }

  predicate FailedBy(n: nat, steps: seq<Step>, j: nat, id: Id, k: nat, status: int)
    requires j < |steps|
  {
    FilterReported(Before(n, steps, j), steps[j], id, k, status)
  }

  /** A filter reported another status than 200 about the request. */
  ghost predicate SomeFilterFailed(n: nat, steps: seq<Step>, id: Id) {
    exists j, k, status :: 0 <= j < |steps| && status != 200 && FailedBy(n, steps, j, id, k, status)
  }

  lemma AllPassed(id: Id, n: nat)
    ensures forall x :: x in Passed(id, n) ==> x.status == 200
  {
  }

  lemma FailureNotHandled(n: nat, steps: seq<Step>, id: Id, j: nat, k: nat, status: int)
    requires Disciplined(steps) && j < |steps| && status != 200
    requires FilterReported(Before(n, steps, j), steps[j], id, k, status)
    ensures Handled(id) !in After(n, steps).answers
  {
    var s := After(n, steps);
    assert steps[..|steps|] == steps;
    ReportCarried(n, steps, j, |steps|, id, k, status);
    DisciplinedRun(n, steps);
    if Report(id, k, status) in s.tasks {
      AnsweredHasNoTask(s, Report(id, k, status));
    } else if i :| 0 <= i < |s.answers| && s.answers[i] == Handled(id) {
      AnswerJustified(n, steps, i);
      InProject(s.accepted, Accepted(id, k, status));
      AllPassed(id, n);
    }
  }

  /** When filters report once, a request that is answered goes to its handler if and only if no filter reported
      another status than 200 about it. */
  lemma HandledUnlessFailed(n: nat, steps: seq<Step>, id: Id, i: nat)
    requires Disciplined(steps) && i < |After(n, steps).answers| && After(n, steps).answers[i].id == id
    ensures After(n, steps).answers[i] == Handled(id) <==> !SomeFilterFailed(n, steps, id)
  {
    var a := After(n, steps).answers[i];
    if SomeFilterFailed(n, steps, id) {
      var j, k, status :| 0 <= j < |steps| && status != 200 && FailedBy(n, steps, j, id, k, status);
      FailureNotHandled(n, steps, id, j, k, status);
    } else if a.Refused? {
      RefusedMeansFailed(n, steps, id, a.code);
      var k: nat, status :| FailedAt(n, steps, id, a.code, k, status);
      ReportsAreTheFilters(n, steps, |steps|, id, k, status);
      var j :| 0 <= j < |steps| && FilterReported(Before(n, steps, j), steps[j], id, k, status);
      assert FailedBy(n, steps, j, id, k, status);
    }
  }
}
