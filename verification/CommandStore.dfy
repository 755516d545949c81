/**
  The life of commands shared by several agents through one Mongo collection (timeout_f,
  remove_command, get_command, process_command_response and get_all_command of
  src/rest/command_handle.cc; respond_mqtt_command of src/mqtt/MqttService.cc; the cache of
  src/util/command_cache.h).

  Any number of agents run any number of handlers at once.  A handler is a sequence of steps, one
  for each operation on the shared collection and one for each status sent; the steps of different
  handlers interleave freely.  Timers may fire late or twice, devices may answer at any time.
  Command ids are distinct.
 */
module CommandStore {

  import opened Counting

  type Id = string
  type Agent = nat

  const READY: int := 0
  const DELIVERED: int := 2

  /** What a handler in progress does next. */
  datatype Handler =
    | Expiring(agent: Agent, id: Id, status: int)       // timeout_f: read the stored status and compare
    | Removing(agent: Agent, id: Id, status: int)       // timeout_f: remove
    | SendExpiry(id: Id, status: int, seen: int)        // timeout_f: it removed the command, stored status `seen`
    | Looking(agent: Agent, id: Id)                     // respond_mqtt_command: look the command up
    | Dropping(agent: Agent, id: Id)                    // respond_mqtt_command: remove, whatever is removed
    | SendReply(id: Id, owned: bool)                    // whether its remove took the command away
    | Marking(agent: Agent, id: Id)                     // publication accepted: update the stored status
    | Caching(agent: Agent, id: Id, found: bool)        // then the cached one
    | Polling(agent: Agent, id: Id)                     // get_all_command: update the stored status
    | SendDelivered(id: Id)

  datatype Message =
    | Pending(id: Id)
    | Delivered(id: Id)
    | Expired(id: Id, status: int, seen: int)           // "expired read" for READY, else "delivered but no respond"
    | Replied(id: Id, owned: bool)                      // OK, with the device's answer

  datatype State = State(
    store: map<Id, int>, caches: map<(Agent, Id), int>, saved: set<Id>, handlers: seq<Handler>, sent: seq<Message>)

  datatype Step =
    | Save(agent: Agent, id: Id)
    | Fire(agent: Agent, id: Id, status: int)
    | Answer(agent: Agent, id: Id)
    | Accept(agent: Agent, id: Id)
    | Poll(agent: Agent, id: Id)
    | Advance(i: nat)

  /** `get_by_entityV`: a poll takes commands not yet delivered from the cache, or one from the collection. */
  predicate PollFinds(s: State, a: Agent, id: Id) {
    || ((a, id) in s.caches && s.caches[(a, id)] == READY)
    || (id in s.store && s.store[id] == READY)
  }

  predicate Enabled(s: State, step: Step) {
    match step
    case Save(a, id) => id !in s.saved
    case Poll(a, id) => PollFinds(s, a, id)
    case Advance(i) => i < |s.handlers|
    case _ => true
  }

  function Start(s: State, h: Handler): State { s.(handlers := s.handlers + [h]) }

  function Send(s: State, m: Message): State { s.(sent := s.sent + [m]) }

  /** `get_by_id`: the cache, then the collection, whose command is then cached. */
  function Lookup(s: State, a: Agent, id: Id): State {
    if (a, id) in s.caches || id !in s.store then s else s.(caches := s.caches[(a, id) := s.store[id]])
  }

  predicate Finds(s: State, a: Agent, id: Id) { (a, id) in s.caches || id in s.store }

  /** `remove_command`: from the agent's cache and from the collection. */
  function Remove(s: State, a: Agent, id: Id): State {
    s.(store := s.store - {id}, caches := s.caches - {(a, id)})
  }

  function Mark(s: State, id: Id): State {
    if id in s.store then s.(store := s.store[id := DELIVERED]) else s
  }

  /** The check of timeout_f: the command is stored, with no later a status than the timer's own. */
  predicate MayExpire(s: State, id: Id, status: int) { id in s.store && s.store[id] <= status }

  /** `get_command` and, if it finds one, `set_status` on the cached object. */
  function MarkCached(s: State, a: Agent, id: Id): State {
    var t := Lookup(s, a, id);
    if (a, id) in t.caches then t.(caches := t.caches[(a, id) := DELIVERED]) else t
  }

  /** One step of a handler. */
  function Proceed(s: State, h: Handler): State {
    match h
    case Expiring(a, id, status) =>
      // no such command, or another agent has moved it on: refused; the cache drops it all the same
      if MayExpire(s, id, status) then Start(s, Removing(a, id, status)) else s.(caches := s.caches - {(a, id)})
    case Removing(a, id, status) =>
      if id in s.store then Start(Remove(s, a, id), SendExpiry(id, status, s.store[id])) else Remove(s, a, id)
    case SendExpiry(id, status, seen) => Send(s, Expired(id, status, seen))
    case Looking(a, id) => if Finds(s, a, id) then Start(Lookup(s, a, id), Dropping(a, id)) else s
    case Dropping(a, id) => Start(Remove(s, a, id), SendReply(id, id in s.store))
    case SendReply(id, owned) => Send(s, Replied(id, owned))
    case Marking(a, id) => Start(Mark(s, id), Caching(a, id, id in s.store))
    case Caching(a, id, found) =>
      if found then Start(MarkCached(s, a, id), SendDelivered(id)) else MarkCached(s, a, id)
    case Polling(a, id) => Start(Mark(s, id), SendDelivered(id))
    case SendDelivered(id) => Send(s, Delivered(id))
  }

  function Next(s: State, step: Step): State
    requires Enabled(s, step)
  {
    match step
    case Save(a, id) =>
      Send(s, Pending(id)).(store := s.store[id := READY], caches := s.caches[(a, id) := READY],
          saved := s.saved + {id})
    case Fire(a, id, status) => Start(s, Expiring(a, id, status))
    case Answer(a, id) => Start(s, Looking(a, id))
    case Accept(a, id) => Start(s, Marking(a, id))
    case Poll(a, id) => Start(s.(caches := s.caches[(a, id) := DELIVERED]), Polling(a, id))
    case Advance(i) => Proceed(s.(handlers := Without(s.handlers, i)), s.handlers[i])
  }

  const INITIAL: State := State(map[], map[], {}, [], [])

  /** The state after a run; steps that are not enabled are skipped. */
  function After(s: State, steps: seq<Step>): State {
    if steps == [] then s
    else
      var t, step := After(s, steps[..|steps| - 1]), steps[|steps| - 1];
      if Enabled(t, step) then Next(t, step) else t
  }

  // ---------- ownership: who took a command out of the collection ----------

  function OwnerOf(id: Id): Handler -> bool {
    (h: Handler) => (h.SendExpiry? || (h.SendReply? && h.owned)) && h.id == id
  }

  function OwnFinal(id: Id): Message -> bool {
    (m: Message) => (m.Expired? || (m.Replied? && m.owned)) && m.id == id
  }

  function One(b: bool): nat { if b then 1 else 0 }

  /** A saved command is in the collection, or exactly one handler took it out, whose final status is
      about to be sent or has been. */
  function Owned(s: State, id: Id): nat {
    One(id in s.store) + Count(s.handlers, OwnerOf(id)) + Count(s.sent, OwnFinal(id))
  }

  predicate IsLate(h: Handler, id: Id) { h.SendReply? && !h.owned && h.id == id }
  predicate IsLateReply(m: Message, id: Id) { m.Replied? && !m.owned && m.id == id }

  /** What is known about ids: only saved ones are anywhere, and a reply that removed nothing is about
      a command that is out of the collection. */
  ghost predicate Known(s: State, id: Id) {
    && (id in s.store ==> id in s.saved)
    && (forall a :: (a, id) in s.caches ==> id in s.saved)
    && (forall i :: 0 <= i < |s.handlers| && s.handlers[i].Dropping? && s.handlers[i].id == id ==> id in s.saved)
    && (forall i :: 0 <= i < |s.handlers| && IsLate(s.handlers[i], id) ==> id in s.saved && id !in s.store)
    && (forall i :: 0 <= i < |s.sent| && IsLateReply(s.sent[i], id) ==> id in s.saved && id !in s.store)
  }

  lemma StartOwned(s: State, h: Handler, id: Id)
    ensures Owned(Start(s, h), id) == Owned(s, id) + One(OwnerOf(id)(h))
  {
    CountAppend(s.handlers, h, OwnerOf(id));
  }

  lemma SendOwned(s: State, m: Message, id: Id)
    ensures Owned(Send(s, m), id) == Owned(s, id) + One(OwnFinal(id)(m))
  {
    CountAppend(s.sent, m, OwnFinal(id));
  }

  lemma RemoveOwned(s: State, a: Agent, r: Id, id: Id)
    ensures Owned(Remove(s, a, r), id) + One(r == id && id in s.store) == Owned(s, id)
  {}

  lemma CachesAside(s: State, a: Agent, r: Id, id: Id)
    ensures Owned(Lookup(s, a, r), id) == Owned(s, id)
    ensures Owned(Mark(s, r), id) == Owned(s, id)
    ensures Owned(MarkCached(s, a, r), id) == Owned(s, id)
  {}

  lemma RemovingOwned(s: State, a: Agent, r: Id, status: int, id: Id)
    ensures Owned(Proceed(s, Removing(a, r, status)), id) == Owned(s, id)
  {
    RemoveOwned(s, a, r, id);
    if r in s.store {
      StartOwned(Remove(s, a, r), SendExpiry(r, status, s.store[r]), id);
    }
  }

  lemma DroppingOwned(s: State, a: Agent, r: Id, id: Id)
    ensures Owned(Proceed(s, Dropping(a, r)), id) == Owned(s, id)
  {
    RemoveOwned(s, a, r, id);
    StartOwned(Remove(s, a, r), SendReply(r, r in s.store), id);
  }

  lemma LookingOwned(s: State, a: Agent, r: Id, id: Id)
    ensures Owned(Proceed(s, Looking(a, r)), id) == Owned(s, id)
  {
    CachesAside(s, a, r, id);
    StartOwned(Lookup(s, a, r), Dropping(a, r), id);
  }

  lemma MarkThenOwned(s: State, r: Id, h: Handler, id: Id)
    requires !OwnerOf(id)(h)
    ensures Owned(Start(Mark(s, r), h), id) == Owned(s, id)
  {
    CachesAside(s, 0, r, id);
    StartOwned(Mark(s, r), h, id);
  }

  lemma MarkingOwned(s: State, a: Agent, r: Id, id: Id)
    ensures Owned(Proceed(s, Marking(a, r)), id) == Owned(s, id)
  {
    MarkThenOwned(s, r, Caching(a, r, r in s.store), id);
  }

  lemma PollingOwned(s: State, a: Agent, r: Id, id: Id)
    ensures Owned(Proceed(s, Polling(a, r)), id) == Owned(s, id)
  {
    MarkThenOwned(s, r, SendDelivered(r), id);
  }

  lemma CachingOwned(s: State, a: Agent, r: Id, found: bool, id: Id)
    ensures Owned(Proceed(s, Caching(a, r, found)), id) == Owned(s, id)
  {
    CachesAside(s, a, r, id);
    StartOwned(MarkCached(s, a, r), SendDelivered(r), id);
  }

  /** Each step of a handler hands ownership on. */
  lemma ProceedOwned(s: State, h: Handler, id: Id)
    ensures Owned(Proceed(s, h), id) == Owned(s, id) + One(OwnerOf(id)(h))
  {
    if h.SendExpiry? || h.SendReply? || h.SendDelivered? {
      SenderOwned(s, h, id);
    } else {
      WorkerOwned(s, h, id);
    }
  }

  lemma SenderOwned(s: State, h: Handler, id: Id)
    requires h.SendExpiry? || h.SendReply? || h.SendDelivered?
    ensures Owned(Proceed(s, h), id) == Owned(s, id) + One(OwnerOf(id)(h))
  {
    match h
    case SendExpiry(r, status, seen) => SendOwned(s, Expired(r, status, seen), id);
    case SendReply(r, owned) => SendOwned(s, Replied(r, owned), id);
    case SendDelivered(r) => SendOwned(s, Delivered(r), id);
  }

  lemma WorkerOwned(s: State, h: Handler, id: Id)
    requires !h.SendExpiry? && !h.SendReply? && !h.SendDelivered?
    ensures Owned(Proceed(s, h), id) == Owned(s, id)
  {
    match h
    case Expiring(a, r, status) => ExpiringOwned(s, a, r, status, id);
    case Removing(a, r, status) => RemovingOwned(s, a, r, status, id);
    case Looking(a, r) => LookingOwned(s, a, r, id);
    case Dropping(a, r) => DroppingOwned(s, a, r, id);
    case Marking(a, r) => MarkingOwned(s, a, r, id);
    case Caching(a, r, found) => CachingOwned(s, a, r, found, id);
    case Polling(a, r) => PollingOwned(s, a, r, id);
  }

  lemma ExpiringOwned(s: State, a: Agent, r: Id, status: int, id: Id)
    ensures Owned(Proceed(s, Expiring(a, r, status)), id) == Owned(s, id)
  {
    StartOwned(s, Removing(a, r, status), id);
  }

  lemma OwnedKept(s: State, step: Step, id: Id)
    requires Enabled(s, step) && Owned(s, id) == One(id in s.saved) && Known(s, id)
    ensures Owned(Next(s, step), id) == One(id in Next(s, step).saved)
  {
    match step
    case Save(a, r) => SendOwned(s, Pending(r), id);
    case Fire(a, r, status) => StartOwned(s, Expiring(a, r, status), id);
    case Answer(a, r) => StartOwned(s, Looking(a, r), id);
    case Accept(a, r) => StartOwned(s, Marking(a, r), id);
    case Poll(a, r) => StartOwned(s.(caches := s.caches[(a, r) := DELIVERED]), Polling(a, r), id);
    case Advance(i) =>
      CountWithout(s.handlers, i, OwnerOf(id));
      ProceedOwned(s.(handlers := Without(s.handlers, i)), s.handlers[i], id);
      SavedKept(s.(handlers := Without(s.handlers, i)), s.handlers[i]);
  }

  lemma SavedKept(s: State, h: Handler)
    ensures Proceed(s, h).saved == s.saved
  {}

  lemma StartKnown(s: State, h: Handler, id: Id)
    requires Known(s, id)
    requires h.Dropping? && h.id == id ==> id in s.saved
    requires IsLate(h, id) ==> id in s.saved && id !in s.store
    ensures Known(Start(s, h), id)
  {}

  lemma SendKnown(s: State, m: Message, id: Id)
    requires Known(s, id) && (IsLateReply(m, id) ==> id in s.saved && id !in s.store)
    ensures Known(Send(s, m), id)
  {}

  lemma CachesKnown(s: State, a: Agent, r: Id, id: Id)
    requires Known(s, id)
    ensures Known(Remove(s, a, r), id) && Known(Lookup(s, a, r), id) && Known(Mark(s, r), id)
            && Known(MarkCached(s, a, r), id)
    ensures r == id && Finds(s, a, r) ==> id in s.saved
  {}

  lemma ProceedKnown(s: State, h: Handler, id: Id)
    requires Known(s, id)
    requires h.Dropping? && h.id == id ==> id in s.saved
    requires IsLate(h, id) ==> id in s.saved && id !in s.store
    ensures Known(Proceed(s, h), id)
  {
    match h
    case Expiring(a, r, status) => StartKnown(s, Removing(a, r, status), id);
    case Removing(a, r, status) =>
      CachesKnown(s, a, r, id);
      if r in s.store {
        StartKnown(Remove(s, a, r), SendExpiry(r, status, s.store[r]), id);
      }
    case SendExpiry(r, status, seen) => SendKnown(s, Expired(r, status, seen), id);
    case Looking(a, r) =>
      CachesKnown(s, a, r, id);
      if Finds(s, a, r) {
        StartKnown(Lookup(s, a, r), Dropping(a, r), id);
      }
    case Dropping(a, r) =>
      CachesKnown(s, a, r, id);
      StartKnown(Remove(s, a, r), SendReply(r, r in s.store), id);
    case SendReply(r, owned) => SendKnown(s, Replied(r, owned), id);
    case Marking(a, r) =>
      CachesKnown(s, a, r, id);
      StartKnown(Mark(s, r), Caching(a, r, r in s.store), id);
    case Caching(a, r, found) =>
      CachesKnown(s, a, r, id);
      StartKnown(MarkCached(s, a, r), SendDelivered(r), id);
    case Polling(a, r) =>
      CachesKnown(s, 0, r, id);
      StartKnown(Mark(s, r), SendDelivered(r), id);
    case SendDelivered(r) => SendKnown(s, Delivered(r), id);
  }

  lemma KnownKept(s: State, step: Step, id: Id)
    requires Enabled(s, step) && Known(s, id)
    ensures Known(Next(s, step), id)
  {
    match step
    case Save(a, r) => SendKnown(s, Pending(r), id);
    case Fire(a, r, status) => StartKnown(s, Expiring(a, r, status), id);
    case Answer(a, r) => StartKnown(s, Looking(a, r), id);
    case Accept(a, r) => StartKnown(s, Marking(a, r), id);
    case Poll(a, r) => StartKnown(s.(caches := s.caches[(a, r) := DELIVERED]), Polling(a, r), id);
    case Advance(i) =>
      var t := s.(handlers := Without(s.handlers, i));
      assert Known(t, id);
      ProceedKnown(t, s.handlers[i], id);
  }

  /** What every run keeps. */
  lemma {:induction false} RunSafe(steps: seq<Step>, id: Id)
    ensures Known(After(INITIAL, steps), id)
    ensures Owned(After(INITIAL, steps), id) == One(id in After(INITIAL, steps).saved)
  {
    if steps != [] {
      var t, step := After(INITIAL, steps[..|steps| - 1]), steps[|steps| - 1];
      RunSafe(steps[..|steps| - 1], id);
      if Enabled(t, step) {
        OwnedKept(t, step, id);
        KnownKept(t, step, id);
      }
    }
  }

  // ---------- final statuses ----------

  function ExpiryOf(id: Id): Message -> bool { (m: Message) => m.Expired? && m.id == id }
  function LateOf(id: Id): Message -> bool { (m: Message) => m.Replied? && !m.owned && m.id == id }
  function FinalOf(id: Id): Message -> bool { (m: Message) => (m.Expired? || m.Replied?) && m.id == id }

  lemma {:induction false} CountWeaker<T>(s: seq<T>, p: T -> bool, q: T -> bool)
    requires forall x :: p(x) ==> q(x)
    ensures Count(s, p) <= Count(s, q)
  {
    if s != [] {
      CountWeaker(s[..|s| - 1], p, q);
    }
  }

  lemma {:induction false} FinalsSplit(sent: seq<Message>, id: Id)
    ensures Count(sent, FinalOf(id)) == Count(sent, OwnFinal(id)) + Count(sent, LateOf(id))
  {
    if sent != [] {
      FinalsSplit(sent[..|sent| - 1], id);
    }
  }

  /** However many agents there are and however their store operations interleave, at most one expiry
      status is ever sent about a command. */
  lemma OneExpiry(steps: seq<Step>, id: Id)
    ensures Count(After(INITIAL, steps).sent, ExpiryOf(id)) <= 1
  {
    RunSafe(steps, id);
    CountWeaker(After(INITIAL, steps).sent, ExpiryOf(id), OwnFinal(id));
  }

  /** No handler has a final status of this command left to send. */
  predicate Settled(s: State, id: Id) {
    forall i :: 0 <= i < |s.handlers|
        ==> !((s.handlers[i].SendExpiry? || s.handlers[i].SendReply?) && s.handlers[i].id == id)
  }

  /** The final statuses sent about a command: one once it has left the collection, and the replies
      that removed nothing. */
  lemma FinalsCounted(steps: seq<Step>, id: Id)
    requires Settled(After(INITIAL, steps), id)
    ensures var s := After(INITIAL, steps);
            && Count(s.sent, FinalOf(id)) == One(id in s.saved && id !in s.store) + Count(s.sent, LateOf(id))
            && (Count(s.sent, FinalOf(id)) <= 1 <==> Count(s.sent, LateOf(id)) == 0)
  {
    var s := After(INITIAL, steps);
    RunSafe(steps, id);
    FinalsSplit(s.sent, id);
    CountZero(s.handlers, OwnerOf(id));
    if Count(s.sent, LateOf(id)) > 0 {
      var i := CountWitness(s.sent, LateOf(id));
      assert IsLateReply(s.sent[i], id);
    }
  }

  // ---------- a command that gets two final statuses ----------

  lemma {:induction false} AfterConcat(s: State, early: seq<Step>, late: seq<Step>)
    ensures After(s, early + late) == After(After(s, early), late)
  {
    if late == [] {
      assert early + late == early;
    } else {
      AfterConcat(s, early, late[..|late| - 1]);
      assert (early + late)[..|early + late| - 1] == early + late[..|late| - 1];
    }
  }

  lemma OneStep(s: State, step: Step)
    requires Enabled(s, step)
    ensures After(s, [step]) == Next(s, step)
  {
    assert [step][..0] == [];
    assert After(s, [step][..0]) == s;
  }

  /** A handler taken from the sequence runs its step. */
  lemma Runs(s: State, i: nat, rest: seq<Handler>, t: State)
    requires i < |s.handlers| && Without(s.handlers, i) == rest
    requires t == Proceed(s.(handlers := rest), s.handlers[i])
    ensures After(s, [Advance(i)]) == t
  {
    OneStep(s, Advance(i));
  }

  function Saved(id: Id, handlers: seq<Handler>): State {
    State(map[id := READY], map[(0, id) := READY], {id}, handlers, [Pending(id)])
  }

  function Gone(id: Id, handlers: seq<Handler>, sent: seq<Message>): State {
    State(map[], map[], {id}, handlers, [Pending(id)] + sent)
  }

  lemma AnswerLookedUp(id: Id)
    ensures After(INITIAL, [Save(0, id)] + [Answer(0, id)] + [Advance(0)]) == Saved(id, [Dropping(0, id)])
  {
    OneStep(INITIAL, Save(0, id));
    OneStep(Saved(id, []), Answer(0, id));
    assert Next(Saved(id, []), Answer(0, id)) == Saved(id, [Looking(0, id)]);
    Runs(Saved(id, [Looking(0, id)]), 0, [], Saved(id, [Dropping(0, id)]));
    AfterConcat(INITIAL, [Save(0, id)], [Answer(0, id)]);
    AfterConcat(INITIAL, [Save(0, id)] + [Answer(0, id)], [Advance(0)]);
  }

  lemma TimerRemoves(id: Id)
    ensures After(Saved(id, [Dropping(0, id)]), [Fire(0, id, READY)] + [Advance(1)] + [Advance(1)] + [Advance(1)])
            == Gone(id, [Dropping(0, id)], [Expired(id, READY, READY)])
  {
    var d := Dropping(0, id);
    var s0, s1, s2 := Saved(id, [d]), Saved(id, [d, Expiring(0, id, READY)]), Saved(id, [d, Removing(0, id, READY)]);
    var s3, s4 := Gone(id, [d, SendExpiry(id, READY, READY)], []), Gone(id, [d], [Expired(id, READY, READY)]);
    OneStep(s0, Fire(0, id, READY));
    assert Next(s0, Fire(0, id, READY)) == s1;
    Runs(s1, 1, [d], s2);
    Runs(s2, 1, [d], s3);
    Runs(s3, 1, [d], s4);
    AfterConcat(s0, [Fire(0, id, READY)], [Advance(1)]);
    AfterConcat(s0, [Fire(0, id, READY)] + [Advance(1)], [Advance(1)]);
    AfterConcat(s0, [Fire(0, id, READY)] + [Advance(1)] + [Advance(1)], [Advance(1)]);
  }

  lemma AnswerSentLate(id: Id)
    ensures After(Gone(id, [Dropping(0, id)], [Expired(id, READY, READY)]), [Advance(0)] + [Advance(0)])
            == Gone(id, [], [Expired(id, READY, READY), Replied(id, false)])
  {
    var sent := [Expired(id, READY, READY)];
    var s0, s1, s2 := Gone(id, [Dropping(0, id)], sent), Gone(id, [SendReply(id, false)], sent),
        Gone(id, [], sent + [Replied(id, false)]);
    Runs(s0, 0, [], s1);
    Runs(s1, 0, [], s2);
    AfterConcat(s0, [Advance(0)], [Advance(0)]);
  }

  /** One agent is enough: the device's answer is looked up, the timer removes the command and reports
      its expiry, and the answer is reported as well. */
  lemma TwoFinals(id: Id)
    ensures var run := ([Save(0, id)] + [Answer(0, id)] + [Advance(0)])
                       + ([Fire(0, id, READY)] + [Advance(1)] + [Advance(1)] + [Advance(1)])
                       + ([Advance(0)] + [Advance(0)]);
            && After(INITIAL, run).handlers == []
            && After(INITIAL, run).sent == [Pending(id)] + [Expired(id, READY, READY), Replied(id, false)]
  {
    AnswerLookedUp(id);
    TimerRemoves(id);
    AnswerSentLate(id);
    var a := [Save(0, id)] + [Answer(0, id)] + [Advance(0)];
    var b := [Fire(0, id, READY)] + [Advance(1)] + [Advance(1)] + [Advance(1)];
    AfterConcat(INITIAL, a, b);
    AfterConcat(INITIAL, a + b, [Advance(0)] + [Advance(0)]);
  }

  // ---------- the stored status ----------

  /** A step that moves the stored status of a command on to delivered. */
  predicate Marks(s: State, step: Step, id: Id) {
    step.Advance? && step.i < |s.handlers| && (s.handlers[step.i].Marking? || s.handlers[step.i].Polling?)
    && s.handlers[step.i].id == id
  }

  lemma StatusMoves(s: State, step: Step, id: Id)
    requires Enabled(s, step) && (id in s.store ==> id in s.saved)
    ensures id in s.saved && id in Next(s, step).store ==> id in s.store
    ensures id in Next(s, step).store && id in s.store && !Marks(s, step, id) ==> Next(s, step).store[id] == s.store[id]
    ensures id in s.store && Marks(s, step, id) ==> id in Next(s, step).store && Next(s, step).store[id] == DELIVERED
    ensures id in s.saved ==> id in Next(s, step).saved
    ensures id in Next(s, step).store ==> id in Next(s, step).saved
  {}

  lemma {:induction false} StatusRange(steps: seq<Step>, id: Id)
    ensures var s := After(INITIAL, steps); id in s.store ==> s.store[id] == READY || s.store[id] == DELIVERED
  {
    if steps != [] {
      StatusRange(steps[..|steps| - 1], id);
    }
  }
}
