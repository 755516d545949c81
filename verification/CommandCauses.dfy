/**
  Where the messages of CommandStore come from, over all runs, and what each operation does when nothing comes
  between its steps.  0 is the status READY_FOR_READ and 2 is DELIVERED.
 */
module CommandCauses {

  import opened Counting
  import opened CommandStore
  import opened CommandRuns

  // ---------- causes ----------

  predicate Knows(s: State, a: Agent, id: Id) {
    (a, id) in s.caches || id in s.store
  }

  predicate NotLater(s: State, id: Id, status: int) {
    id in s.store && s.store[id] <= status
  }

  /** Step c is the check of a timer started by step f, and finds the command stored with no later a status. */
  ghost predicate CheckPassed(steps: seq<Step>, n: nat, a: Agent, id: Id, status: int)
    requires n <= |steps|
  {
    exists f, c :: 0 <= f < c < n && steps[f] == Fire(a, id, status)
                   && Advances(steps, c, Expiring(a, id, status)) && NotLater(Before(steps, c), id, status)
  }

  /** Then step r is its remove, and takes the command away. */
  ghost predicate RemoveDone(steps: seq<Step>, n: nat, id: Id, status: int, seen: int)
    requires n <= |steps|
  {
    exists a, r :: 0 <= r < n && CheckPassed(steps, r, a, id, status) && RemovedAt(steps, r, a, id, status, seen)
  }

  predicate RemovedAt(steps: seq<Step>, r: nat, a: Agent, id: Id, status: int, seen: int)
    requires r < |steps|
  {
    && Advances(steps, r, Removing(a, id, status))
    && id in Before(steps, r).store && seen == Before(steps, r).store[id]
  }

  /** A device's answer at step f was found at step l to be about a command the agent knows. */
  ghost predicate AnswerKnown(steps: seq<Step>, n: nat, a: Agent, id: Id)
    requires n <= |steps|
  {
    exists f, l :: 0 <= f < l < n && steps[f] == Answer(a, id)
                   && Advances(steps, l, Looking(a, id)) && Knows(Before(steps, l), a, id)
  }

  /** Then step d removed the command, or found it gone. */
  ghost predicate AnswerTaken(steps: seq<Step>, n: nat, id: Id, owned: bool)
    requires n <= |steps|
  {
    exists a, d :: 0 <= d < n && AnswerKnown(steps, d, a, id) && DroppedAt(steps, d, a, id, owned)
  }

  predicate DroppedAt(steps: seq<Step>, d: nat, a: Agent, id: Id, owned: bool)
    requires d < |steps|
  {
    Advances(steps, d, Dropping(a, id)) && owned == (id in Before(steps, d).store)
  }

  /** A publication accepted at step f marked the stored command at step m. */
  ghost predicate AcceptMarked(steps: seq<Step>, n: nat, a: Agent, id: Id)
    requires n <= |steps|
  {
    exists f, m :: 0 <= f < m < n && steps[f] == Accept(a, id)
                   && Advances(steps, m, Marking(a, id)) && id in Before(steps, m).store
  }

  /** A poll at step f took the command, and went on at step m. */
  ghost predicate PollWent(steps: seq<Step>, n: nat, a: Agent, id: Id)
    requires n <= |steps|
  {
    exists f, m :: 0 <= f < m < n && steps[f] == Poll(a, id) && Advances(steps, m, Polling(a, id))
  }

  ghost predicate DeliveryMade(steps: seq<Step>, n: nat, id: Id)
    requires n <= |steps|
  {
    exists a :: AcceptMarked(steps, n, a, id) || PollWent(steps, n, a, id)
  }

  ghost predicate Earlier(steps: seq<Step>, n: nat, step: Step)
    requires n <= |steps|
  {
    exists f :: 0 <= f < n && steps[f] == step
  }

  /** What must have happened for a handler to be about to take its step. */
  ghost predicate Origin(steps: seq<Step>, n: nat, h: Handler)
    requires n <= |steps|
  {
    match h
    case Expiring(a, id, status) => Earlier(steps, n, Fire(a, id, status))
    case Removing(a, id, status) => CheckPassed(steps, n, a, id, status)
    case SendExpiry(id, status, seen) => RemoveDone(steps, n, id, status, seen)
    case Looking(a, id) => Earlier(steps, n, Answer(a, id))
    case Dropping(a, id) => AnswerKnown(steps, n, a, id)
    case SendReply(id, owned) => AnswerTaken(steps, n, id, owned)
    case Marking(a, id) => Earlier(steps, n, Accept(a, id))
    case Caching(a, id, found) => found ==> AcceptMarked(steps, n, a, id)
    case Polling(a, id) => Earlier(steps, n, Poll(a, id))
    case SendDelivered(id) => DeliveryMade(steps, n, id)
  }

  lemma OriginStays(steps: seq<Step>, n: nat, h: Handler)
    requires n < |steps| && Origin(steps, n, h)
    ensures Origin(steps, n + 1, h)
  {
    match h
    case SendDelivered(id) =>
      var a :| AcceptMarked(steps, n, a, id) || PollWent(steps, n, a, id);
      assert AcceptMarked(steps, n + 1, a, id) || PollWent(steps, n + 1, a, id);
    case _ =>
  }

  /** A timer, an answer, a publication or a poll starts the handlers without a handler before them. */
  predicate Begins(step: Step, h: Handler) {
    match h
    case Expiring(a, id, status) => step == Fire(a, id, status)
    case Looking(a, id) => step == Answer(a, id)
    case Marking(a, id) => step == Accept(a, id)
    case Polling(a, id) => step == Poll(a, id)
    case _ => false
  }

  /** A handler goes on as another. */
  predicate GoesOn(s: State, g: Handler, h: Handler) {
    match h
    case Removing(a, id, status) => g == Expiring(a, id, status) && NotLater(s, id, status)
    case SendExpiry(id, status, seen) =>
      g.Removing? && g.id == id && g.status == status && id in s.store && seen == s.store[id]
    case Dropping(a, id) => g == Looking(a, id) && Knows(s, a, id)
    case SendReply(id, owned) => g.Dropping? && g.id == id && owned == (id in s.store)
    case Caching(a, id, found) => g == Marking(a, id) && found == (id in s.store)
    case SendDelivered(id) => g.id == id && (g.Polling? || (g.Caching? && g.found))
    case _ => false
  }

  lemma ProceedHandler(s: State, g: Handler, h: Handler)
    requires h in Proceed(s, g).handlers && h !in s.handlers
    ensures GoesOn(s, g, h)
  {
  }

  lemma NewHandler(s: State, step: Step, h: Handler)
    requires Enabled(s, step) && h in Next(s, step).handlers && h !in s.handlers
    ensures Begins(step, h) || (step.Advance? && GoesOn(s, s.handlers[step.i], h))
  {
    if step.Advance? {
      ProceedHandler(s.(handlers := Without(s.handlers, step.i)), s.handlers[step.i], h);
    }
  }

  lemma OriginGoesOn(steps: seq<Step>, n: nat, g: Handler, h: Handler)
    requires n < |steps| && Advances(steps, n, g) && Origin(steps, n, g) && GoesOn(Before(steps, n), g, h)
    ensures Origin(steps, n + 1, h)
  {
    match h
    case Removing(a, id, status) =>
    case SendExpiry(id, status, seen) =>
      assert RemovedAt(steps, n, g.agent, id, status, seen);
    case Dropping(a, id) =>
    case SendReply(id, owned) =>
      assert DroppedAt(steps, n, g.agent, id, owned);
    case Caching(a, id, found) =>
    case SendDelivered(id) =>
      if g.Polling? {
        assert PollWent(steps, n + 1, g.agent, id);
      } else {
        assert AcceptMarked(steps, n + 1, g.agent, id);
      }
  }

  lemma {:induction false} HandlerOrigin(steps: seq<Step>, n: nat, h: Handler)
    requires n <= |steps| && h in Before(steps, n).handlers
    ensures Origin(steps, n, h)
    decreases n
  {
    var m := n - 1;
    var s := Before(steps, m);
    StepAt(steps, m);
    if h in s.handlers {
      HandlerOrigin(steps, m, h);
      OriginStays(steps, m, h);
    } else {
      NewHandler(s, steps[m], h);
      if !Begins(steps[m], h) {
        var g := s.handlers[steps[m].i];
        HandlerOrigin(steps, m, g);
        OriginGoesOn(steps, m, g, h);
      }
    }
  }

  /** What must have happened for a message to be sent. */
  ghost predicate Caused(steps: seq<Step>, n: nat, m: Message)
    requires n <= |steps|
  {
    match m
    case Pending(id) => exists a :: Earlier(steps, n, Save(a, id))
    case Delivered(id) => DeliveryMade(steps, n, id)
    case Expired(id, status, seen) => RemoveDone(steps, n, id, status, seen)
    case Replied(id, owned) => AnswerTaken(steps, n, id, owned)
  }

  lemma ProceedMessage(s: State, g: Handler, m: Message)
    requires m in Proceed(s, g).sent && m !in s.sent
    ensures match m
            case Pending(id) => false
            case Delivered(id) => g == SendDelivered(id)
            case Expired(id, status, seen) => g == SendExpiry(id, status, seen)
            case Replied(id, owned) => g == SendReply(id, owned)
  {
  }

  lemma NewMessage(s: State, step: Step, m: Message)
    requires Enabled(s, step) && m in Next(s, step).sent && m !in s.sent
    ensures match m
            case Pending(id) => step.Save? && step.id == id
            case Delivered(id) => SendDelivered(id) in s.handlers
            case Expired(id, status, seen) => SendExpiry(id, status, seen) in s.handlers
            case Replied(id, owned) => SendReply(id, owned) in s.handlers
  {
    if step.Advance? {
      ProceedMessage(s.(handlers := Without(s.handlers, step.i)), s.handlers[step.i], m);
    }
  }

  lemma CausedStays(steps: seq<Step>, n: nat, m: Message)
    requires n < |steps| && Caused(steps, n, m)
    ensures Caused(steps, n + 1, m)
  {
    match m
    case Pending(id) =>
      var a :| Earlier(steps, n, Save(a, id));
      assert Earlier(steps, n + 1, Save(a, id));
    case Delivered(id) => OriginStays(steps, n, SendDelivered(id));
    case Expired(id, status, seen) =>
    case Replied(id, owned) =>
  }

  /** Over every run, every message was caused: a pending by a save, a "delivered" by a publication accepted while the
      command was stored or by a poll, an expiry by a timer whose check found the command stored with no later a status
      and whose remove took it away with the status seen, and a reply by an answer to a command the agent knew. */
  lemma {:induction false} EveryMessageCaused(steps: seq<Step>, n: nat, m: Message)
    requires n <= |steps| && m in Before(steps, n).sent
    ensures Caused(steps, n, m)
    decreases n
  {
    var k := n - 1;
    var s := Before(steps, k);
    StepAt(steps, k);
    if m in s.sent {
      EveryMessageCaused(steps, k, m);
      CausedStays(steps, k, m);
    } else {
      NewMessage(s, steps[k], m);
      match m
      case Pending(id) => assert Earlier(steps, n, Save(steps[k].agent, id));
      case Delivered(id) =>
        HandlerOrigin(steps, k, SendDelivered(id));
        OriginStays(steps, k, SendDelivered(id));
      case Expired(id, status, seen) => HandlerOrigin(steps, k, SendExpiry(id, status, seen));
      case Replied(id, owned) => HandlerOrigin(steps, k, SendReply(id, owned));
    }
  }

  // ---------- operations with nothing in between ----------

  lemma OneMore(s: State, steps: seq<Step>, step: Step)
    ensures var t := After(s, steps);
            After(s, steps + [step]) == if Enabled(t, step) then Next(t, step) else t
  {
    assert (steps + [step])[..|steps|] == steps;
  }

  /** The last handler takes its step. */
  lemma LastProceeds(s: State, steps: seq<Step>, u: State, h: Handler)
    requires After(s, steps) == Start(u, h)
    ensures After(s, steps + [Advance(|u.handlers|)]) == Proceed(u, h)
  {
    OneMore(s, steps, Advance(|u.handlers|));
    assert Without(u.handlers + [h], |u.handlers|) == u.handlers;
  }

  lemma NothingToDo(s: State, steps: seq<Step>, i: nat)
    requires |After(s, steps).handlers| <= i
    ensures After(s, steps + [Advance(i)]) == After(s, steps)
  {
    OneMore(s, steps, Advance(i));
  }

  /** A step that begins a handler, which then runs to its end. */
  function Whole(s: State, step: Step): seq<Step> {
    [step] + [Advance(|s.handlers|)] + [Advance(|s.handlers|)] + [Advance(|s.handlers|)]
  }

  lemma OneOf(s: State, step: Step, u: State, h: Handler)
    requires Enabled(s, step) && Next(s, step) == Start(u, h) && |u.handlers| == |s.handlers|
    ensures After(s, [step] + [Advance(|s.handlers|)]) == Proceed(u, h)
    ensures |Proceed(u, h).handlers| == |s.handlers| ==> After(s, Whole(s, step)) == Proceed(u, h)
  {
    var i := |s.handlers|;
    OneStep(s, step);
    LastProceeds(s, [step], u, h);
    if |Proceed(u, h).handlers| == i {
      NothingToDo(s, [step] + [Advance(i)], i);
      NothingToDo(s, [step] + [Advance(i)] + [Advance(i)], i);
    }
  }

  lemma TwoOf(s: State, step: Step, u: State, h: Handler, v: State, g: Handler)
    requires Enabled(s, step) && Next(s, step) == Start(u, h) && |u.handlers| == |s.handlers|
    requires Proceed(u, h) == Start(v, g) && |v.handlers| == |s.handlers|
    ensures After(s, [step] + [Advance(|s.handlers|)] + [Advance(|s.handlers|)]) == Proceed(v, g)
    ensures |Proceed(v, g).handlers| == |s.handlers| ==> After(s, Whole(s, step)) == Proceed(v, g)
  {
    var i := |s.handlers|;
    OneOf(s, step, u, h);
    LastProceeds(s, [step] + [Advance(i)], v, g);
    if |Proceed(v, g).handlers| == i {
      NothingToDo(s, [step] + [Advance(i)] + [Advance(i)], i);
    }
  }

  lemma ThreeOf(s: State, step: Step, u: State, h: Handler, v: State, g: Handler, w: State, f: Handler)
    requires Enabled(s, step) && Next(s, step) == Start(u, h) && |u.handlers| == |s.handlers|
    requires Proceed(u, h) == Start(v, g) && |v.handlers| == |s.handlers|
    requires Proceed(v, g) == Start(w, f) && |w.handlers| == |s.handlers|
    ensures After(s, Whole(s, step)) == Proceed(w, f)
  {
    TwoOf(s, step, u, h, v, g);
    LastProceeds(s, [step] + [Advance(|s.handlers|)] + [Advance(|s.handlers|)], w, f);
  }

  /** A command that is saved is stored and cached as ready, and announced as pending. */
  lemma SaveWhole(s: State, a: Agent, id: Id)
    requires id !in s.saved
    ensures After(s, [Save(a, id)]) ==
            State(s.store[id := 0], s.caches[(a, id) := 0], s.saved + {id}, s.handlers, s.sent + [Pending(id)])
  {
    OneStep(s, Save(a, id));
  }

  /** A timer: the command leaves the store and the agent's cache, and its expiry is sent, if it is stored with no
      later a status than the timer's own; otherwise the cache alone drops it. */
  lemma TimerWhole(s: State, a: Agent, id: Id, status: int)
    ensures var dropped := s.(caches := s.caches - {(a, id)});
            After(s, Whole(s, Fire(a, id, status))) ==
            if id in s.store && s.store[id] <= status
            then dropped.(store := s.store - {id}, sent := s.sent + [Expired(id, status, s.store[id])])
            else dropped
  {
    var step, h := Fire(a, id, status), Expiring(a, id, status);
    if id in s.store && s.store[id] <= status {
      ThreeOf(s, step, s, h, s, Removing(a, id, status), Remove(s, a, id), SendExpiry(id, status, s.store[id]));
    } else {
      OneOf(s, step, s, h);
    }
  }

  lemma KnownAnswered(s: State, a: Agent, id: Id)
    requires Finds(s, a, id)
    ensures After(s, Whole(s, Answer(a, id))) == Send(Remove(Lookup(s, a, id), a, id), Replied(id, id in s.store))
  {
    var u := Lookup(s, a, id);
    var v := Remove(u, a, id);
    assert u.handlers == s.handlers && v.handlers == s.handlers && u.store == s.store;
    ThreeOf(s, Answer(a, id), s, Looking(a, id), u, Dropping(a, id), v, SendReply(id, id in s.store));
  }

  lemma LookupRemoved(s: State, a: Agent, id: Id)
    ensures Remove(Lookup(s, a, id), a, id) == s.(store := s.store - {id}, caches := s.caches - {(a, id)})
  {
    if id in s.store {
      assert s.caches[(a, id) := s.store[id]] - {(a, id)} == s.caches - {(a, id)};
    }
  }

  /** A device's answer: a command the agent knows leaves store and cache, and the reply is sent. */
  lemma AnswerWhole(s: State, a: Agent, id: Id)
    ensures After(s, Whole(s, Answer(a, id))) ==
            if (a, id) in s.caches || id in s.store
            then s.(store := s.store - {id}, caches := s.caches - {(a, id)},
                    sent := s.sent + [Replied(id, id in s.store)])
            else s
  {
    if Finds(s, a, id) {
      KnownAnswered(s, a, id);
      LookupRemoved(s, a, id);
    } else {
      OneOf(s, Answer(a, id), s, Looking(a, id));
    }
  }

  lemma MarkingGoesOn(s: State, a: Agent, id: Id, store: map<Id, int>)
    requires id in s.store && store == s.store[id := 2]
    ensures Proceed(s, Marking(a, id)) == Start(s.(store := store), Caching(a, id, true))
  {
  }

  lemma CachingGoesOn(s: State, a: Agent, id: Id, caches: map<(Agent, Id), int>)
    requires id in s.store && s.store[id] == 2 && caches == s.caches[(a, id) := 2]
    ensures Proceed(s, Caching(a, id, true)) == Start(s.(caches := caches), SendDelivered(id))
  {
    if (a, id) !in s.caches {
      assert s.caches[(a, id) := 2][(a, id) := 2] == s.caches[(a, id) := 2];
    }
  }

  lemma StoredAccepted(s: State, a: Agent, id: Id, u: State, v: State)
    requires Proceed(s, Marking(a, id)) == Start(u, Caching(a, id, true)) && u.handlers == s.handlers
    requires Proceed(u, Caching(a, id, true)) == Start(v, SendDelivered(id)) && v.handlers == s.handlers
    ensures After(s, Whole(s, Accept(a, id))) == Proceed(v, SendDelivered(id))
  {
    ThreeOf(s, Accept(a, id), s, Marking(a, id), u, Caching(a, id, true), v, SendDelivered(id));
  }

  lemma GoneAccepted(s: State, a: Agent, id: Id)
    requires id !in s.store
    ensures After(s, Whole(s, Accept(a, id))) == MarkCached(s, a, id)
  {
    TwoOf(s, Accept(a, id), s, Marking(a, id), s, Caching(a, id, false));
  }

  lemma Sends(v: State, id: Id)
    ensures Proceed(v, SendDelivered(id)) == State(v.store, v.caches, v.saved, v.handlers, v.sent + [Delivered(id)])
  {
  }

  lemma MarkedAndCached(s: State, a: Agent, id: Id, u: State, v: State)
    requires id in s.store && u == State(s.store[id := 2], s.caches, s.saved, s.handlers, s.sent)
    requires v == State(s.store[id := 2], s.caches[(a, id) := 2], s.saved, s.handlers, s.sent)
    ensures After(s, Whole(s, Accept(a, id))) == Proceed(v, SendDelivered(id))
  {
    MarkingGoesOn(s, a, id, u.store);
    CachingGoesOn(u, a, id, v.caches);
    StoredAccepted(s, a, id, u, v);
  }

  /** A publication accepted for a stored command: it is delivered, in store and cache, and this is sent. */
  lemma AcceptStored(s: State, a: Agent, id: Id)
    requires id in s.store
    ensures After(s, Whole(s, Accept(a, id))) ==
            s.(store := s.store[id := 2], caches := s.caches[(a, id) := 2], sent := s.sent + [Delivered(id)])
  {
    var u := State(s.store[id := 2], s.caches, s.saved, s.handlers, s.sent);
    var v := State(s.store[id := 2], s.caches[(a, id) := 2], s.saved, s.handlers, s.sent);
    MarkedAndCached(s, a, id, u, v);
    Sends(v, id);
  }

  /** For one that is no longer stored: nothing is sent, and only what the agent has cached is marked. */
  lemma AcceptGone(s: State, a: Agent, id: Id)
    requires id !in s.store
    ensures After(s, Whole(s, Accept(a, id))) ==
            if (a, id) in s.caches then s.(caches := s.caches[(a, id) := 2]) else s
  {
    GoneAccepted(s, a, id);
  }

  lemma Polled(s: State, u: State, a: Agent, id: Id, v: State)
    requires PollFinds(s, a, id) && Next(s, Poll(a, id)) == Start(u, Polling(a, id)) && u.handlers == s.handlers
    requires Mark(u, id) == v && v.handlers == s.handlers
    ensures After(s, Whole(s, Poll(a, id))) == Proceed(v, SendDelivered(id))
  {
    TwoOf(s, Poll(a, id), u, Polling(a, id), v, SendDelivered(id));
  }

  lemma PollBegins(s: State, a: Agent, id: Id, u: State)
    requires PollFinds(s, a, id) && u == State(s.store, s.caches[(a, id) := 2], s.saved, s.handlers, s.sent)
    ensures Next(s, Poll(a, id)) == Start(u, Polling(a, id))
  {
  }

  /** A poll that finds a command: it is delivered, and this is sent, whether or not it is still stored. */
  lemma PollWhole(s: State, a: Agent, id: Id)
    requires ((a, id) in s.caches && s.caches[(a, id)] == 0) || (id in s.store && s.store[id] == 0)
    ensures After(s, Whole(s, Poll(a, id))) ==
            State(if id in s.store then s.store[id := 2] else s.store, s.caches[(a, id) := 2], s.saved, s.handlers,
                  s.sent + [Delivered(id)])
  {
    var u := State(s.store, s.caches[(a, id) := 2], s.saved, s.handlers, s.sent);
    PollBegins(s, a, id, u);
    var v := State(if id in s.store then s.store[id := 2] else s.store, u.caches, s.saved, s.handlers, s.sent);
    Polled(s, u, a, id, v);
    Sends(v, id);
  }

  /** A poll takes no command that is neither cached nor stored as ready. */
  lemma PollOther(s: State, a: Agent, id: Id)
    requires !((a, id) in s.caches && s.caches[(a, id)] == 0) && !(id in s.store && s.store[id] == 0)
    ensures After(s, Whole(s, Poll(a, id))) == s
  {
    var i := |s.handlers|;
    OneMore(s, [], Poll(a, id));
    assert [] + [Poll(a, id)] == [Poll(a, id)];
    NothingToDo(s, [Poll(a, id)], i);
    NothingToDo(s, [Poll(a, id)] + [Advance(i)], i);
    NothingToDo(s, [Poll(a, id)] + [Advance(i)] + [Advance(i)], i);
  }
}
