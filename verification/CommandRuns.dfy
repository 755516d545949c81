/**
  What the runs of CommandStore can make agents send: which expiries contradict the stored status, how many
  final statuses there are, and when "delivered" comes too late.  A run is a sequence of steps from the
  initial state; its steps are referred to by their positions.
 */
module CommandRuns {

  import opened Counting
  import opened CommandStore

  /** The state before step k of a run. */
  function Before(steps: seq<Step>, k: nat): State
    requires k <= |steps|
  {
    After(INITIAL, steps[..k])
  }

  lemma StepAt(steps: seq<Step>, k: nat)
    requires k < |steps|
    ensures var s := Before(steps, k);
            Before(steps, k + 1) == if Enabled(s, steps[k]) then Next(s, steps[k]) else s
  {
    assert steps[..k + 1][..k] == steps[..k];
  }

  /** Step k runs the handler h. */
  predicate Advances(steps: seq<Step>, k: nat, h: Handler)
    requires k < |steps|
  {
    var handlers := Before(steps, k).handlers;
    steps[k].Advance? && steps[k].i < |handlers| && handlers[steps[k].i] == h
  }

  /** Step k is the check of a timer, and lets it go ahead. */
  predicate Checks(steps: seq<Step>, k: nat, a: Agent, id: Id, status: int)
    requires k < |steps|
  {
    Advances(steps, k, Expiring(a, id, status)) && MayExpire(Before(steps, k), id, status)
  }

  /** Step k is the remove of a timer, and removes the command. */
  predicate Removes(steps: seq<Step>, k: nat, a: Agent, id: Id, status: int)
    requires k < |steps|
  {
    Advances(steps, k, Removing(a, id, status)) && id in Before(steps, k).store
  }

  /** Step k moves the stored status of the command on to delivered. */
  predicate MarksAt(steps: seq<Step>, k: nat, id: Id)
    requires k < |steps|
  {
    Marks(Before(steps, k), steps[k], id) && id in Before(steps, k).store
  }

  ghost predicate MarkedBetween(steps: seq<Step>, first: nat, end: nat, id: Id)
    requires end <= |steps|
  {
    exists k :: first <= k < end && MarksAt(steps, k, id)
  }

  // ---------- an expiry that contradicts the stored status ----------

  /** What the store says between a passing check at c and position n. */
  ghost predicate StatusSince(steps: seq<Step>, c: nat, n: nat, id: Id)
    requires n <= |steps|
  {
    var s := Before(steps, n);
    id in s.saved && (id in s.store ==> s.store[id] == if MarkedBetween(steps, c + 1, n, id) then DELIVERED else READY)
  }

  lemma StatusAfterCheck(steps: seq<Step>, c: nat, a: Agent, id: Id)
    requires c < |steps| && Checks(steps, c, a, id, READY)
    ensures StatusSince(steps, c, c + 1, id)
  {
    StepAt(steps, c);
    StatusRange(steps[..c], id);
    RunSafe(steps[..c], id);
  }

  lemma StatusStays(steps: seq<Step>, c: nat, n: nat, id: Id)
    requires c < n < |steps| && StatusSince(steps, c, n, id)
    ensures StatusSince(steps, c, n + 1, id)
  {
    var s, step := Before(steps, n), steps[n];
    StepAt(steps, n);
    assert MarkedBetween(steps, c + 1, n + 1, id) <==> MarkedBetween(steps, c + 1, n, id) || MarksAt(steps, n, id);
    if Enabled(s, step) {
      StatusMoves(s, step, id);
    } else {
      assert !Marks(s, step, id);
    }
  }

  /** A remove that is due was let through by a check. */
  ghost predicate Due(steps: seq<Step>, n: nat, a: Agent, id: Id)
    requires n <= |steps|
  {
    exists c :: 0 <= c < n && Checks(steps, c, a, id, READY) && StatusSince(steps, c, n, id)
  }

  /** An expiry was let through by a check and removed the command; the status it saw is delivered exactly
      when a delivery marked the command between the two. */
  ghost predicate Explained(steps: seq<Step>, n: nat, id: Id, seen: int)
    requires n <= |steps|
  {
    exists a, c, r :: 0 <= c < r < n && ExpiredBy(steps, a, c, r, id, seen)
  }

  ghost predicate ExpiredBy(steps: seq<Step>, a: Agent, c: nat, r: nat, id: Id, seen: int)
    requires c < r < |steps|
  {
    && Checks(steps, c, a, id, READY) && Removes(steps, r, a, id, READY)
    && seen == Before(steps, r).store[id]
    && seen == if MarkedBetween(steps, c + 1, r, id) then DELIVERED else READY
  }

  /** Where a handler that was not there before comes from. */
  lemma Started(s: State, step: Step, h: Handler)
    requires Enabled(s, step) && h in Next(s, step).handlers && h !in s.handlers
    ensures h.Removing? ==>
              step.Advance? && s.handlers[step.i] == Expiring(h.agent, h.id, h.status) && MayExpire(s, h.id, h.status)
    ensures h.SendExpiry? ==>
              && step.Advance? && s.handlers[step.i].Removing? && s.handlers[step.i].id == h.id
              && s.handlers[step.i].status == h.status && h.id in s.store && h.seen == s.store[h.id]
    ensures h.Caching? && h.found ==>
              step.Advance? && s.handlers[step.i].Marking? && s.handlers[step.i].id == h.id && h.id in s.store
    ensures h.SendDelivered? ==>
              && step.Advance? && s.handlers[step.i].id == h.id
              && (s.handlers[step.i].Polling? || (s.handlers[step.i].Caching? && s.handlers[step.i].found))
    ensures h.Polling? ==> step == Poll(h.agent, h.id)
  {
  }

  lemma {:induction false} RemovingIsDue(steps: seq<Step>, n: nat, a: Agent, id: Id)
    requires n <= |steps| && Removing(a, id, READY) in Before(steps, n).handlers
    ensures Due(steps, n, a, id)
  {
    var m := n - 1;
    StepAt(steps, m);
    if Removing(a, id, READY) in Before(steps, m).handlers {
      RemovingIsDue(steps, m, a, id);
      var c :| 0 <= c < m && Checks(steps, c, a, id, READY) && StatusSince(steps, c, m, id);
      StatusStays(steps, c, m, id);
    } else {
      Started(Before(steps, m), steps[m], Removing(a, id, READY));
      assert Checks(steps, m, a, id, READY);
      StatusAfterCheck(steps, m, a, id);
    }
  }

  lemma {:induction false} ExpiryIsExplained(steps: seq<Step>, n: nat, id: Id, seen: int)
    requires n <= |steps| && SendExpiry(id, READY, seen) in Before(steps, n).handlers
    ensures Explained(steps, n, id, seen)
  {
    var m, h := n - 1, SendExpiry(id, READY, seen);
    StepAt(steps, m);
    if h in Before(steps, m).handlers {
      ExpiryIsExplained(steps, m, id, seen);
    } else {
      var s := Before(steps, m);
      Started(s, steps[m], h);
      var a := s.handlers[steps[m].i].agent;
      RemovingIsDue(steps, m, a, id);
      var c :| 0 <= c < m && Checks(steps, c, a, id, READY) && StatusSince(steps, c, m, id);
      assert ExpiredBy(steps, a, c, m, id, seen);
    }
  }

  lemma SentByHandler(s: State, step: Step, m: Message)
    requires Enabled(s, step) && m in Next(s, step).sent && m !in s.sent
    ensures m.Expired? ==> SendExpiry(m.id, m.status, m.seen) in s.handlers
  {
  }

  /** Over all interleavings of all agents: every "expired read" that is sent was let through by a check at
      some step c and removed the command at a later step r, and the command it removed was stored as
      delivered exactly when a delivery marked it between c and r. */
  lemma {:induction false} StaleExpiry(steps: seq<Step>, n: nat, id: Id, seen: int)
    requires n <= |steps| && Expired(id, READY, seen) in Before(steps, n).sent
    ensures Explained(steps, n, id, seen)
  {
    var m, e := n - 1, Expired(id, READY, seen);
    StepAt(steps, m);
    if e in Before(steps, m).sent {
      StaleExpiry(steps, m, id, seen);
    } else {
      SentByHandler(Before(steps, m), steps[m], e);
      ExpiryIsExplained(steps, m, id, seen);
    }
  }

  lemma {:induction false} StatusUpTo(steps: seq<Step>, a: Agent, c: nat, n: nat, id: Id)
    requires c < n <= |steps| && Checks(steps, c, a, id, READY)
    ensures StatusSince(steps, c, n, id)
    decreases n
  {
    if n == c + 1 {
      StatusAfterCheck(steps, c, a, id);
    } else {
      StatusUpTo(steps, a, c, n - 1, id);
      StatusStays(steps, c, n - 1, id);
    }
  }

  /** And from the other side: whatever runs between a passing check and a remove that finds the command, the
      expiry then due carries the status delivered exactly when a delivery marked the command in between. */
  lemma CheckToRemove(steps: seq<Step>, a: Agent, c: nat, r: nat, id: Id)
    requires c < r < |steps| && Checks(steps, c, a, id, READY) && Removes(steps, r, a, id, READY)
    ensures SendExpiry(id, READY, if MarkedBetween(steps, c + 1, r, id) then DELIVERED else READY)
            in Before(steps, r + 1).handlers
  {
    StatusUpTo(steps, a, c, r, id);
    StepAt(steps, r);
    var s := Before(steps, r);
    var t := Next(s, steps[r]);
    assert t.handlers[|t.handlers| - 1] == SendExpiry(id, READY, s.store[id]);
  }

  /** A command saved and given a timer by agent 0. */
  function OneTimer(id: Id): seq<Step> { [Save(0, id)] + [Fire(0, id, READY)] + [Advance(0)] }

  lemma TimerChecked(id: Id)
    ensures After(INITIAL, OneTimer(id)) == Saved(id, [Removing(0, id, READY)])
  {
    OneStep(INITIAL, Save(0, id));
    OneStep(Saved(id, []), Fire(0, id, READY));
    assert Next(Saved(id, []), Fire(0, id, READY)) == Saved(id, [Expiring(0, id, READY)]);
    Runs(Saved(id, [Expiring(0, id, READY)]), 0, [], Saved(id, [Removing(0, id, READY)]));
    AfterConcat(INITIAL, [Save(0, id)], [Fire(0, id, READY)]);
    AfterConcat(INITIAL, [Save(0, id)] + [Fire(0, id, READY)], [Advance(0)]);
  }

  /** The state after a delivery has marked the command. */
  function Delivering(id: Id, handlers: seq<Handler>): State {
    Saved(id, handlers).(store := map[id := DELIVERED])
  }

  lemma DeliverySlipsIn(id: Id)
    ensures After(Saved(id, [Removing(0, id, READY)]), [Accept(0, id)] + [Advance(1)] + [Advance(0)])
            == Gone(id, [Caching(0, id, true), SendExpiry(id, READY, DELIVERED)], [])
  {
    var r, c := Removing(0, id, READY), Caching(0, id, true);
    var s0, s1, s2 := Saved(id, [r]), Saved(id, [r, Marking(0, id)]), Delivering(id, [r, c]);
    OneStep(s0, Accept(0, id));
    assert Next(s0, Accept(0, id)) == s1;
    Runs(s1, 1, [r], s2);
    Runs(s2, 0, [c], Gone(id, [c, SendExpiry(id, READY, DELIVERED)], []));
    AfterConcat(s0, [Accept(0, id)], [Advance(1)]);
    AfterConcat(s0, [Accept(0, id)] + [Advance(1)], [Advance(0)]);
  }

  lemma BothSent(id: Id)
    ensures After(Gone(id, [Caching(0, id, true), SendExpiry(id, READY, DELIVERED)], []),
                  [Advance(1)] + [Advance(0)] + [Advance(0)])
            == Gone(id, [], [Expired(id, READY, DELIVERED), Delivered(id)])
  {
    var c, e := Caching(0, id, true), Expired(id, READY, DELIVERED);
    var s0 := Gone(id, [c, SendExpiry(id, READY, DELIVERED)], []);
    var s1, s2, s3 := Gone(id, [c], [e]), Gone(id, [SendDelivered(id)], [e]), Gone(id, [], [e, Delivered(id)]);
    Runs(s0, 1, [c], s1);
    Runs(s1, 0, [], s2);
    Runs(s2, 0, [], s3);
    AfterConcat(s0, [Advance(1)], [Advance(0)]);
    AfterConcat(s0, [Advance(1)] + [Advance(0)], [Advance(0)]);
  }

  /** One agent is enough: a delivery between the check of a timer and its remove, and "expired read" is sent of
      a command stored as delivered, and "delivered" after it. */
  lemma DeliveredButExpired(id: Id)
    ensures var run := OneTimer(id) + ([Accept(0, id)] + [Advance(1)] + [Advance(0)])
                       + ([Advance(1)] + [Advance(0)] + [Advance(0)]);
            && After(INITIAL, run).handlers == []
            && After(INITIAL, run).sent == [Pending(id)] + [Expired(id, READY, DELIVERED), Delivered(id)]
  {
    TimerChecked(id);
    DeliverySlipsIn(id);
    BothSent(id);
    AfterConcat(INITIAL, OneTimer(id), [Accept(0, id)] + [Advance(1)] + [Advance(0)]);
    AfterConcat(INITIAL, OneTimer(id) + ([Accept(0, id)] + [Advance(1)] + [Advance(0)]),
                [Advance(1)] + [Advance(0)] + [Advance(0)]);
  }

  // ---------- the check and the remove as one step ----------

  /** Runs in which each check that lets a timer go ahead is followed at once by that timer's remove. */
  ghost predicate Atomic(steps: seq<Step>) {
    forall c, a, id, status :: 0 <= c < |steps| - 1 && Checks(steps, c, a, id, status) ==>
      steps[c + 1].Advance? && steps[c + 1].i == |Before(steps, c + 1).handlers| - 1
  }

  /** The remove that is due is the last handler, and was let through by the step before. */
  predicate JustChecked(steps: seq<Step>, n: nat, i: nat)
    requires n <= |steps| && i < |Before(steps, n).handlers|
  {
    var h := Before(steps, n).handlers[i];
    h.Removing? ==> i == |Before(steps, n).handlers| - 1 && n > 0 && Checks(steps, n - 1, h.agent, h.id, h.status)
  }

  lemma {:induction false} RemovesAtOnce(steps: seq<Step>, n: nat)
    requires Atomic(steps) && n <= |steps|
    ensures forall i: nat :: i < |Before(steps, n).handlers| ==> JustChecked(steps, n, i)
  {
    if n > 0 {
      var s := Before(steps, n - 1);
      RemovesAtOnce(steps, n - 1);
      StepAt(steps, n - 1);
      if j: nat :| j < |s.handlers| && s.handlers[j].Removing? {
        LastRemoved(steps, n - 1, j);
      } else {
        forall i: nat | i < |Before(steps, n).handlers| ensures JustChecked(steps, n, i) {
          FirstRemoving(steps, n - 1, i);
        }
      }
    }
  }

  lemma LastRemoved(steps: seq<Step>, m: nat, j: nat)
    requires Atomic(steps) && m < |steps|
    requires forall i: nat :: i < |Before(steps, m).handlers| ==> JustChecked(steps, m, i)
    requires j < |Before(steps, m).handlers| && Before(steps, m).handlers[j].Removing?
    ensures forall h :: h in Before(steps, m + 1).handlers ==> !h.Removing?
  {
    var s := Before(steps, m);
    StepAt(steps, m);
    assert JustChecked(steps, m, j) && steps[m] == Advance(j);
    forall i: nat | i < j ensures !s.handlers[i].Removing? {
      assert JustChecked(steps, m, i);
    }
  }

  lemma FirstRemoving(steps: seq<Step>, m: nat, i: nat)
    requires m < |steps| && forall j: nat :: j < |Before(steps, m).handlers| ==> !Before(steps, m).handlers[j].Removing?
    requires i < |Before(steps, m + 1).handlers|
    ensures JustChecked(steps, m + 1, i)
  {
    var s, h := Before(steps, m), Before(steps, m + 1).handlers[i];
    StepAt(steps, m);
    if h.Removing? {
      assert h !in s.handlers;
      Started(s, steps[m], h);
    }
  }

  lemma SeenAtOnce(steps: seq<Step>, r: nat, a: Agent, id: Id)
    requires Atomic(steps) && r < |steps| && Removes(steps, r, a, id, READY)
    ensures Before(steps, r).store[id] == READY
  {
    RemovesAtOnce(steps, r);
    assert JustChecked(steps, r, steps[r].i);
    StatusAfterCheck(steps, r - 1, a, id);
  }

  /** Then "expired read" is only ever sent of a command whose stored status was READY_FOR_READ. */
  lemma OneStepExpiry(steps: seq<Step>, id: Id, seen: int)
    requires Atomic(steps) && Expired(id, READY, seen) in After(INITIAL, steps).sent
    ensures seen == READY
  {
    var n := |steps|;
    assert steps[..n] == steps;
    StaleExpiry(steps, n, id, seen);
    var a, c, r :| 0 <= c < r < n && ExpiredBy(steps, a, c, r, id, seen);
    SeenAtOnce(steps, r, a, id);
  }

  // ---------- how many final statuses ----------

  /** Step k is the remove of an answer that finds the command gone. */
  predicate DropsLate(steps: seq<Step>, k: nat, id: Id)
    requires k < |steps|
  {
    Drops(Before(steps, k), steps[k], id)
  }

  predicate Drops(s: State, step: Step, id: Id) {
    && step.Advance? && step.i < |s.handlers| && s.handlers[step.i].Dropping? && s.handlers[step.i].id == id
    && id !in s.store
  }

  function LateDrops(steps: seq<Step>, n: nat, id: Id): nat
    requires n <= |steps|
  {
    if n == 0 then 0 else LateDrops(steps, n - 1, id) + One(DropsLate(steps, n - 1, id))
  }

  function LateSender(id: Id): Handler -> bool { (h: Handler) => h.SendReply? && !h.owned && h.id == id }

  /** Replies that removed nothing, about to be sent or sent. */
  function Late(s: State, id: Id): nat {
    Count(s.handlers, LateSender(id)) + Count(s.sent, LateOf(id))
  }

  lemma StartLate(s: State, h: Handler, id: Id)
    ensures Late(Start(s, h), id) == Late(s, id) + One(LateSender(id)(h))
  {
    CountAppend(s.handlers, h, LateSender(id));
  }

  lemma SendLate(s: State, m: Message, id: Id)
    ensures Late(Send(s, m), id) == Late(s, id) + One(LateOf(id)(m))
  {
    CountAppend(s.sent, m, LateOf(id));
  }

  lemma TimerLate(s: State, h: Handler, id: Id)
    requires h.Expiring? || h.Removing? || h.SendExpiry?
    ensures Late(Proceed(s, h), id) == Late(s, id)
  {
    match h
    case Expiring(a, r, status) => StartLate(s, Removing(a, r, status), id);
    case Removing(a, r, status) =>
      if r in s.store {
        StartLate(Remove(s, a, r), SendExpiry(r, status, s.store[r]), id);
      }
    case SendExpiry(r, status, seen) => SendLate(s, Expired(r, status, seen), id);
  }

  lemma AnswerLate(s: State, h: Handler, id: Id)
    requires h.Looking? || h.Dropping? || h.SendReply?
    ensures Late(Proceed(s, h), id)
            == Late(s, id) + One(LateSender(id)(h)) + One(h.Dropping? && h.id == id && id !in s.store)
  {
    match h
    case Looking(a, r) => StartLate(Lookup(s, a, r), Dropping(a, r), id);
    case Dropping(a, r) => StartLate(Remove(s, a, r), SendReply(r, r in s.store), id);
    case SendReply(r, owned) => SendLate(s, Replied(r, owned), id);
  }

  lemma DeliveryLate(s: State, h: Handler, id: Id)
    requires h.Marking? || h.Caching? || h.Polling? || h.SendDelivered?
    ensures Late(Proceed(s, h), id) == Late(s, id)
  {
    match h
    case Marking(a, r) => StartLate(Mark(s, r), Caching(a, r, r in s.store), id);
    case Caching(a, r, found) => StartLate(MarkCached(s, a, r), SendDelivered(r), id);
    case Polling(a, r) => StartLate(Mark(s, r), SendDelivered(r), id);
    case SendDelivered(r) => SendLate(s, Delivered(r), id);
  }

  lemma StepLate(s: State, step: Step, id: Id)
    requires Enabled(s, step)
    ensures Late(Next(s, step), id) == Late(s, id) + One(Drops(s, step, id))
  {
    match step
    case Save(a, r) => SendLate(s, Pending(r), id);
    case Fire(a, r, status) => StartLate(s, Expiring(a, r, status), id);
    case Answer(a, r) => StartLate(s, Looking(a, r), id);
    case Accept(a, r) => StartLate(s, Marking(a, r), id);
    case Poll(a, r) => StartLate(s.(caches := s.caches[(a, r) := DELIVERED]), Polling(a, r), id);
    case Advance(i) =>
      var h, t := s.handlers[i], s.(handlers := Without(s.handlers, i));
      CountWithout(s.handlers, i, LateSender(id));
      if h.Expiring? || h.Removing? || h.SendExpiry? {
        TimerLate(t, h, id);
      } else if h.Looking? || h.Dropping? || h.SendReply? {
        AnswerLate(t, h, id);
      } else {
        DeliveryLate(t, h, id);
      }
  }

  lemma {:induction false} LateCounted(steps: seq<Step>, n: nat, id: Id)
    requires n <= |steps|
    ensures Late(Before(steps, n), id) == LateDrops(steps, n, id)
  {
    if n > 0 {
      LateCounted(steps, n - 1, id);
      StepAt(steps, n - 1);
      var s, step := Before(steps, n - 1), steps[n - 1];
      if Enabled(s, step) {
        StepLate(s, step, id);
      }
    }
  }

  lemma {:induction false} NoneLate(steps: seq<Step>, n: nat, id: Id)
    requires n <= |steps|
    ensures LateDrops(steps, n, id) == 0 <==> forall k :: 0 <= k < n ==> !DropsLate(steps, k, id)
  {
    if n > 0 {
      NoneLate(steps, n - 1, id);
    }
  }

  /** How many final statuses a run sends about a command: one once it has left the collection, and one more
      for each remove of an answer that finds it gone.  So there is at most one if and only if no answer's remove
      comes after the command has left. */
  lemma FinalsExact(steps: seq<Step>, id: Id)
    requires Settled(After(INITIAL, steps), id)
    ensures var s := After(INITIAL, steps);
            && Count(s.sent, FinalOf(id)) == One(id in s.saved && id !in s.store) + LateDrops(steps, |steps|, id)
            && (Count(s.sent, FinalOf(id)) <= 1 <==> forall k :: 0 <= k < |steps| ==> !DropsLate(steps, k, id))
  {
    var s := After(INITIAL, steps);
    assert steps[..|steps|] == steps;
    LateCounted(steps, |steps|, id);
    NoneLate(steps, |steps|, id);
    CountZero(s.handlers, LateSender(id));
    FinalsCounted(steps, id);
  }

  // ---------- "delivered" after the end ----------

  /** Step k makes a "delivered" due: it marks a stored command, or a poll that found it goes on. */
  predicate Delivers(steps: seq<Step>, k: nat, id: Id)
    requires k < |steps|
  {
    var s := Before(steps, k);
    && steps[k].Advance? && steps[k].i < |s.handlers| && s.handlers[steps[k].i].id == id
    && (s.handlers[steps[k].i].Polling? || (s.handlers[steps[k].i].Marking? && id in s.store))
  }

  /** Step k takes the command out of the collection. */
  predicate Leaves(steps: seq<Step>, k: nat, id: Id)
    requires k < |steps|
  {
    id in Before(steps, k).store && id !in Before(steps, k + 1).store
  }

  lemma {:induction false} DeliveredIsDue(steps: seq<Step>, n: nat, h: Handler)
    requires n <= |steps| && h in Before(steps, n).handlers && (h.SendDelivered? || (h.Caching? && h.found))
    ensures exists m :: 0 <= m < n && Delivers(steps, m, h.id)
    decreases n
  {
    var m := n - 1;
    var s := Before(steps, m);
    StepAt(steps, m);
    if h in s.handlers {
      DeliveredIsDue(steps, m, h);
    } else {
      Started(s, steps[m], h);
      var g := s.handlers[steps[m].i];
      if g.Caching? {
        DeliveredIsDue(steps, m, g);
      } else {
        assert Delivers(steps, m, h.id);
      }
    }
  }

  lemma {:induction false} LeftBetween(steps: seq<Step>, first: nat, end: nat, id: Id)
    requires first < end <= |steps| && id in Before(steps, first).store && id !in Before(steps, end).store
    ensures exists r :: first <= r < end && Leaves(steps, r, id)
    decreases end
  {
    if id in Before(steps, end - 1).store {
      assert Leaves(steps, end - 1, id);
    } else {
      LeftBetween(steps, first, end - 1, id);
    }
  }

  // A command that has left stays out.

  lemma SavedStays(steps: seq<Step>, n: nat, id: Id)
    requires n < |steps| && id in Before(steps, n).saved
    ensures id in Before(steps, n + 1).saved
    ensures id !in Before(steps, n).store ==> id !in Before(steps, n + 1).store
  {
    StepAt(steps, n);
    RunSafe(steps[..n], id);
    if Enabled(Before(steps, n), steps[n]) {
      StatusMoves(Before(steps, n), steps[n], id);
    }
  }

  lemma {:induction false} GoneStays(steps: seq<Step>, first: nat, end: nat, id: Id)
    requires first <= end <= |steps| && id in Before(steps, first).saved && id !in Before(steps, first).store
    ensures id in Before(steps, end).saved && id !in Before(steps, end).store
    decreases end
  {
    if first < end {
      GoneStays(steps, first, end - 1, id);
      SavedStays(steps, end - 1, id);
    }
  }

  lemma {:induction false} PolledIsSaved(steps: seq<Step>, n: nat, h: Handler)
    requires n <= |steps| && h in Before(steps, n).handlers && h.Polling?
    ensures h.id in Before(steps, n).saved
    decreases n
  {
    var m := n - 1;
    var s := Before(steps, m);
    StepAt(steps, m);
    if h in s.handlers {
      PolledIsSaved(steps, m, h);
    } else {
      Started(s, steps[m], h);
      RunSafe(steps[..m], h.id);
    }
    SavedStays(steps, m, h.id);
  }

  lemma DelivererIsSaved(steps: seq<Step>, m: nat, id: Id)
    requires m < |steps| && Delivers(steps, m, id)
    ensures id in Before(steps, m).saved
  {
    var s := Before(steps, m);
    var h := s.handlers[steps[m].i];
    if h.Polling? {
      PolledIsSaved(steps, m, h);
    } else {
      RunSafe(steps[..m], id);
    }
  }

  /** The command is gone before step d, seen from a step m that makes a "delivered" due: it was gone already, or
      leaves between the two. */
  ghost predicate GoneBy(steps: seq<Step>, m: nat, d: nat, id: Id)
    requires m < d <= |steps|
  {
    id in Before(steps, m).store ==> exists r :: m < r < d && Leaves(steps, r, id)
  }

  lemma GoneByExactly(steps: seq<Step>, m: nat, d: nat, id: Id)
    requires m < d <= |steps| && Delivers(steps, m, id)
    ensures GoneBy(steps, m, d, id) <==> id !in Before(steps, d).store
  {
    DelivererIsSaved(steps, m, id);
    StepAt(steps, m);
    SavedStays(steps, m, id);
    if id !in Before(steps, m).store {
      GoneStays(steps, m, d, id);
    } else if id !in Before(steps, d).store {
      LeftBetween(steps, m + 1, d, id);
    } else if r :| m < r < d && Leaves(steps, r, id) {
      SavedUpTo(steps, m, r + 1, id);
      GoneStays(steps, r + 1, d, id);
    }
  }

  lemma {:induction false} SavedUpTo(steps: seq<Step>, first: nat, end: nat, id: Id)
    requires first <= end <= |steps| && id in Before(steps, first).saved
    ensures id in Before(steps, end).saved
    decreases end
  {
    if first < end {
      SavedUpTo(steps, first, end - 1, id);
      SavedStays(steps, end - 1, id);
    }
  }

  /** Step d sends "delivered". */
  predicate SendsDelivered(steps: seq<Step>, d: nat, id: Id)
    requires d < |steps|
  {
    Advances(steps, d, SendDelivered(id))
  }

  /** A "delivered" is sent of a command that has left the collection if and only if the command left between a
      step that made a "delivered" due and the sending, or a poll went on that found it gone.  Some step before
      made it due, and it does not matter which one is taken. */
  lemma DeliveredTooLate(steps: seq<Step>, d: nat, id: Id)
    requires d < |steps| && SendsDelivered(steps, d, id)
    ensures exists m :: 0 <= m < d && Delivers(steps, m, id)
    ensures id !in Before(steps, d).store <==>
            exists m :: 0 <= m < d && Delivers(steps, m, id) && GoneBy(steps, m, d, id)
    ensures id !in Before(steps, d).store <==>
            forall m :: 0 <= m < d && Delivers(steps, m, id) ==> GoneBy(steps, m, d, id)
  {
    DeliveredIsDue(steps, d, SendDelivered(id));
    forall m | 0 <= m < d && Delivers(steps, m, id) ensures GoneBy(steps, m, d, id) <==> id !in Before(steps, d).store {
      GoneByExactly(steps, m, d, id);
    }
  }

  /** Over whole runs: no "delivered" is sent of a command that is gone if and only if no command leaves between a
      step that makes a "delivered" due and one that sends it, and no poll of a gone command is followed by one. */
  lemma DeliveredInTime(steps: seq<Step>)
    ensures (forall d, id :: 0 <= d < |steps| && SendsDelivered(steps, d, id) ==> id in Before(steps, d).store) <==>
            forall m, d, id :: 0 <= m < d < |steps| && Delivers(steps, m, id) && SendsDelivered(steps, d, id) ==>
              !GoneBy(steps, m, d, id)
  {
    forall m, d, id | 0 <= m < d < |steps| && Delivers(steps, m, id) && SendsDelivered(steps, d, id)
      ensures GoneBy(steps, m, d, id) <==> id !in Before(steps, d).store
    {
      GoneByExactly(steps, m, d, id);
    }
    forall d, id | 0 <= d < |steps| && SendsDelivered(steps, d, id)
      ensures exists m :: 0 <= m < d && Delivers(steps, m, id)
    {
      DeliveredIsDue(steps, d, SendDelivered(id));
    }
  }

  // A final status is only ever sent of a command that has left.

  lemma FinalMeansGone(steps: seq<Step>, n: nat, m: Message)
    requires n <= |steps| && m in Before(steps, n).sent && FinalOf(m.id)(m)
    ensures m.id in Before(steps, n).saved && m.id !in Before(steps, n).store
  {
    var s := Before(steps, n);
    var i :| 0 <= i < |s.sent| && s.sent[i] == m;
    RunSafe(steps[..n], m.id);
    if OwnFinal(m.id)(m) {
      CountPositive(s.sent, i, OwnFinal(m.id));
    } else {
      assert IsLateReply(s.sent[i], m.id);
    }
  }

  /** A final status of the command has been sent before step d. */
  ghost predicate Ended(steps: seq<Step>, d: nat, id: Id)
    requires d <= |steps|
  {
    exists m :: m in Before(steps, d).sent && FinalOf(id)(m)
  }

  /** "Delivered" comes after a final status among the messages sent before position n. */
  ghost predicate DeliveredAfterFinal(steps: seq<Step>, n: nat, id: Id)
    requires n <= |steps|
  {
    var sent := Before(steps, n).sent;
    exists i, j :: 0 <= i < j < |sent| && FinalOf(id)(sent[i]) && sent[j] == Delivered(id)
  }

  lemma SentByStep(steps: seq<Step>, n: nat)
    requires n < |steps|
    ensures var before, after := Before(steps, n).sent, Before(steps, n + 1).sent;
            && before <= after <= before + after[|before|..] && |after| <= |before| + 1
            && forall id :: |before| < |after| ==> (after[|before|] == Delivered(id) <==> SendsDelivered(steps, n, id))
    ensures forall id :: SendsDelivered(steps, n, id) ==> |Before(steps, n).sent| < |Before(steps, n + 1).sent|
  {
    StepAt(steps, n);
  }

  lemma {:induction false} DeliveredWhenEnded(steps: seq<Step>, n: nat, id: Id)
    requires n <= |steps|
    ensures DeliveredAfterFinal(steps, n, id) <==>
            exists d :: 0 <= d < n && SendsDelivered(steps, d, id) && Ended(steps, d, id)
    ensures forall d :: 0 <= d < n && Ended(steps, d, id) ==> id !in Before(steps, d).store
  {
    if n > 0 {
      DeliveredWhenEnded(steps, n - 1, id);
      OneMoreSent(steps, n - 1, id);
      if Ended(steps, n - 1, id) {
        var m :| m in Before(steps, n - 1).sent && FinalOf(id)(m);
        FinalMeansGone(steps, n - 1, m);
      }
    }
  }

  lemma OneMoreSent(steps: seq<Step>, n: nat, id: Id)
    requires n < |steps|
    ensures DeliveredAfterFinal(steps, n + 1, id) <==>
            DeliveredAfterFinal(steps, n, id) || (SendsDelivered(steps, n, id) && Ended(steps, n, id))
  {
    var before, after := Before(steps, n).sent, Before(steps, n + 1).sent;
    SentByStep(steps, n);
    if DeliveredAfterFinal(steps, n, id) {
      var i, j :| 0 <= i < j < |before| && FinalOf(id)(before[i]) && before[j] == Delivered(id);
      assert after[i] == before[i] && after[j] == before[j];
    }
    if SendsDelivered(steps, n, id) && Ended(steps, n, id) {
      var m :| m in before && FinalOf(id)(m);
      var i :| 0 <= i < |before| && before[i] == m;
      assert after[i] == before[i] && after[|before|] == Delivered(id);
    }
    if DeliveredAfterFinal(steps, n + 1, id) {
      var i, j :| 0 <= i < j < |after| && FinalOf(id)(after[i]) && after[j] == Delivered(id);
      assert before[i] == after[i];
      if j < |before| {
        assert before[j] == after[j];
      }
    }
  }

  /** Step e sends a final status. */
  predicate SendsFinal(steps: seq<Step>, e: nat, id: Id)
    requires e < |steps|
  {
    var s := Before(steps, e);
    && steps[e].Advance? && steps[e].i < |s.handlers| && s.handlers[steps[e].i].id == id
    && (s.handlers[steps[e].i].SendExpiry? || s.handlers[steps[e].i].SendReply?)
  }

  lemma FinalLast(steps: seq<Step>, n: nat, id: Id)
    requires n < |steps|
    ensures var before, after := Before(steps, n).sent, Before(steps, n + 1).sent;
            SendsFinal(steps, n, id) <==> |before| < |after| && FinalOf(id)(after[|after| - 1])
  {
    StepAt(steps, n);
  }

  lemma FinalByStep(steps: seq<Step>, n: nat, id: Id)
    requires n < |steps|
    ensures Ended(steps, n + 1, id) <==> Ended(steps, n, id) || SendsFinal(steps, n, id)
  {
    SentByStep(steps, n);
    FinalLast(steps, n, id);
    OneMoreFinal(Before(steps, n).sent, Before(steps, n + 1).sent, id);
  }

  lemma OneMoreFinal(before: seq<Message>, after: seq<Message>, id: Id)
    requires before <= after && |after| <= |before| + 1
    ensures (exists m :: m in after && FinalOf(id)(m)) <==>
            (exists m :: m in before && FinalOf(id)(m)) || (|before| < |after| && FinalOf(id)(after[|after| - 1]))
  {
    if m :| m in before && FinalOf(id)(m) {
      assert m in after;
    }
    if m :| m in after && FinalOf(id)(m) {
      var i :| 0 <= i < |after| && after[i] == m;
      assert i < |before| ==> m == before[i];
    }
  }

  lemma {:induction false} EndedExactly(steps: seq<Step>, n: nat, id: Id)
    requires n <= |steps|
    ensures Ended(steps, n, id) <==> exists e :: 0 <= e < n && SendsFinal(steps, e, id)
  {
    if n > 0 {
      EndedExactly(steps, n - 1, id);
      FinalByStep(steps, n - 1, id);
    }
  }

  /** "Delivered" comes after a final status about a command if and only if a step that sends it comes after one that
      sends a final status; and then, whichever step made it due, the command left between that step and the sending,
      or was gone before it. */
  lemma DeliveredAfterFinalExactly(steps: seq<Step>, id: Id)
    ensures DeliveredAfterFinal(steps, |steps|, id) <==>
            exists e, d :: 0 <= e < d < |steps| && SendsFinal(steps, e, id) && SendsDelivered(steps, d, id)
    ensures forall e, m, d ::
              0 <= e < d < |steps| && 0 <= m < d && SendsFinal(steps, e, id) && Delivers(steps, m, id) ==>
              GoneBy(steps, m, d, id)
  {
    DeliveredWhenEnded(steps, |steps|, id);
    forall d | 0 <= d < |steps|
      ensures Ended(steps, d, id) <==> exists e :: 0 <= e < d && SendsFinal(steps, e, id)
    {
      EndedExactly(steps, d, id);
    }
    forall e, m, d | 0 <= e < d < |steps| && 0 <= m < d && SendsFinal(steps, e, id) && Delivers(steps, m, id)
      ensures GoneBy(steps, m, d, id)
    {
      GoneByExactly(steps, m, d, id);
    }
  }
}
