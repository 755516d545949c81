/**
  One agent's commands, with a Mongo collection behind a bounded cache (class CommandHandle of
  src/rest/command_handle.cc, respond_mqtt_command of src/mqtt/MqttService.cc, CommandCache of
  src/util/command_cache.h).  Each method runs to its end before the next begins.
 */
module CommandHandles {

  type Id = string

  const READY: int := 0
  const DELIVERED: int := 2

  /** Statuses sent to the context broker. */
  datatype Message =
    | Pending(id: Id) | Delivered(id: Id)
    | Done(id: Id) | Failed(id: Id) | ExpiredRead(id: Id) | ExpiredDelivery(id: Id)

  predicate Final(m: Message) { m.Done? || m.Failed? || m.ExpiredRead? || m.ExpiredDelivery? }

  datatype Option<T> = None | Some(value: T)

  datatype Ledger = Ledger(capacity: nat, cache: map<Id, int>, store: map<Id, int>, sent: seq<Message>)

  // ---------- what each operation does ----------

  /** The cache takes a new command only while it has room, and keeps the one it has. */
  function Cached(l: Ledger, id: Id, status: int): Ledger {
    if id !in l.cache && |l.cache| < l.capacity then l.(cache := l.cache[id := status]) else l
  }

  function Sent(l: Ledger, m: Message): Ledger { l.(sent := l.sent + [m]) }

  function Removed(l: Ledger, id: Id): Ledger { l.(cache := l.cache - {id}, store := l.store - {id}) }

  /** A new command is announced, cached and stored; one without an id is announced and refused, and
      one whose id is already stored is announced and cached only. */
  function Update(l: Ledger, id: Id): Ledger {
    var p := Sent(l, Pending(id));
    if id == "" then p
    else
      var c := Cached(p, id, READY);
      if id in l.store then c else c.(store := l.store[id := READY])
  }

  /** An accepted publication marks the command delivered wherever it is, and says so only if it was
      still stored. */
  function Accepted(l: Ledger, id: Id): Ledger {
    var marked := if id in l.store then l.(store := l.store[id := DELIVERED]) else l;
    var c := if id in l.cache then marked.(cache := l.cache[id := DELIVERED])
             else if id in l.store then Cached(marked, id, DELIVERED) else marked;
    if id in l.store then Sent(c, Delivered(id)) else c
  }

  /** Any other result of a publication ends the command, known or not. */
  function Ended(l: Ledger, id: Id, code: int): Ledger {
    Sent(Removed(l, id), if code == 200 then Done(id) else Failed(id))
  }

  /** A device's answer counts only while the command is known. */
  function Answered(l: Ledger, id: Id): Ledger {
    if id in l.cache || id in l.store then Sent(Removed(l, id), Done(id)) else l
  }

  /** A timer expires a command only while it is stored with no later a status than the timer's; it
      leaves the cache in any case. */
  function TimedOut(l: Ledger, id: Id, status: int): Ledger {
    if id in l.store && l.store[id] <= status then
      Sent(Removed(l, id),
           if status == READY then ExpiredRead(id) else if status == DELIVERED then ExpiredDelivery(id) else Failed(id))
    else l.(cache := l.cache - {id})
  }

  // ---------- the class ----------

  class CommandHandle {
    const capacity: nat
    var asyncCommands: map<Id, int>
    var table: map<Id, int>
    var sent: seq<Message>

    ghost function View(): Ledger reads this { Ledger(capacity, asyncCommands, table, sent) }

    constructor (capacity: nat)
      ensures View() == Ledger(capacity, map[], map[], [])
    {
      this.capacity := capacity;
      asyncCommands, table, sent := map[], map[], [];
    }

    method CacheInsert(id: Id, status: int)
      modifies `asyncCommands
      ensures View() == Cached(old(View()), id, status)
      ensures id in old(asyncCommands) || |old(asyncCommands)| >= capacity ==> asyncCommands == old(asyncCommands)
      ensures id !in old(asyncCommands) && |old(asyncCommands)| < capacity ==>
                asyncCommands == old(asyncCommands)[id := status]
    {
      if id !in asyncCommands && |asyncCommands| < capacity {
        asyncCommands := asyncCommands[id := status];
      }
    }

    method SaveCommand(id: Id, status: int) returns (ok: bool)
      modifies `asyncCommands, `table
      ensures ok == (id != "" && id !in old(table))
      ensures View() == if id == "" then old(View())
                        else Cached(old(View()), id, status)
                             .(store := if id in old(table) then old(table) else old(table)[id := status])
    {
      ok := false;
      if id != "" {
        CacheInsert(id, status);
        if id !in table {
          table := table[id := status];
          ok := true;
        }
      }
    }

    /** From the cache, or else from the collection into the cache. */
    method GetCommand(id: Id) returns (status: Option<int>)
      modifies `asyncCommands
      ensures status == if id in old(asyncCommands) then Some(old(asyncCommands)[id])
                        else if id in table then Some(table[id]) else None
      ensures View() == if id in old(asyncCommands) || id !in table then old(View())
                        else Cached(old(View()), id, table[id])
    {
      if id in asyncCommands {
        status := Some(asyncCommands[id]);
      } else if id in table {
        status := Some(table[id]);
        CacheInsert(id, table[id]);
      } else {
        status := None;
      }
    }

    method RemoveCommand(id: Id) returns (removed: nat)
      modifies `asyncCommands, `table
      ensures View() == Removed(old(View()), id)
      ensures asyncCommands == old(asyncCommands) - {id} && table == old(table) - {id}
      ensures removed == if id in old(table) then 1 else 0
    {
      asyncCommands := asyncCommands - {id};
      removed := 0;
      if id in table {
        table := table - {id};
        removed := 1;
      }
    }

    /** `updateCommand` for a command that is pushed to its device. */
    method UpdateCommand(id: Id) returns (ok: bool)
      modifies this
      ensures View() == Update(old(View()), id)
      ensures ok == (id != "" && id !in old(table)) && sent == old(sent) + [Pending(id)]
      ensures table == if ok then old(table)[id := 0] else old(table)
    {
      sent := sent + [Pending(id)];
      ok := SaveCommand(id, READY);
    }

    method ProcessCommandResponse(id: Id, code: int)
      modifies this
      ensures View() == if code == 202 then Accepted(old(View()), id) else Ended(old(View()), id, code)
      ensures code == 200 ==> sent == old(sent) + [Done(id)]
      ensures code != 200 && code != 202 ==> sent == old(sent) + [Failed(id)]
      ensures code != 202 ==> table == old(table) - {id} && asyncCommands == old(asyncCommands) - {id}
      ensures code == 202 && id in old(table) ==> table == old(table)[id := 2] && sent == old(sent) + [Delivered(id)]
      ensures code == 202 && id !in old(table) ==> table == old(table) && sent == old(sent)
      ensures code == 202 && id in asyncCommands ==> asyncCommands[id] == 2
    {
      if code == 200 {
        var n := RemoveCommand(id);
        sent := sent + [Done(id)];
      } else if code == 202 {
        var n := 0;
        if id in table {
          table := table[id := DELIVERED];
          n := 1;
        }
        var found := GetCommand(id);
        if found.Some? && id in asyncCommands {
          asyncCommands := asyncCommands[id := DELIVERED];
        }
        if n > 0 {
          sent := sent + [Delivered(id)];
        }
      } else {
        var n := RemoveCommand(id);
        sent := sent + [Failed(id)];
      }
    }

    method RespondMqttCommand(id: Id)
      modifies this
      ensures View() == Answered(old(View()), id)
      ensures id in old(table) || id in old(asyncCommands) ==>
                && sent == old(sent) + [Done(id)]
                && table == old(table) - {id} && asyncCommands == old(asyncCommands) - {id}
      ensures id !in old(table) && id !in old(asyncCommands) ==>
                sent == old(sent) && table == old(table) && asyncCommands == old(asyncCommands)
    {
      var command := GetCommand(id);
      assert asyncCommands - {id} == old(asyncCommands) - {id};
      if command.Some? {
        var n := RemoveCommand(id);
        sent := sent + [Done(id)];
      }
    }

    /** A timer with the status of its own copy of the command, which may be long gone. */
    method ItemTimeout(id: Id, status: int)
      modifies this
      ensures View() == TimedOut(old(View()), id, status)
      ensures asyncCommands == old(asyncCommands) - {id}
      ensures id in old(table) && old(table)[id] <= status ==>
                && table == old(table) - {id}
                && sent == old(sent) + [if status == 0 then ExpiredRead(id)
                                        else if status == 2 then ExpiredDelivery(id) else Failed(id)]
      ensures !(id in old(table) && old(table)[id] <= status) ==> table == old(table) && sent == old(sent)
    {
      if id in table && !(status < table[id]) {
        var removed := RemoveCommand(id);
        if removed > 0 {
          if status == READY {
            sent := sent + [ExpiredRead(id)];
          } else if status == DELIVERED {
            sent := sent + [ExpiredDelivery(id)];
          } else {
            sent := sent + [Failed(id)];
          }
        }
      }
      asyncCommands := asyncCommands - {id};
    }
  }

  // ---------- every run ----------

  /** Commands sent to devices, and the results of their publications; device answers and timers at any time,
      repeated, late, or about commands that never were. */
  datatype Event = New(id: Id) | Published(id: Id, code: int) | Response(id: Id) | Timer(id: Id, status: int)

  function Step(l: Ledger, e: Event): Ledger {
    match e
    case New(id) => Update(l, id)
    case Published(id, code) => if code == 202 then Accepted(l, id) else Ended(l, id, code)
    case Response(id) => Answered(l, id)
    case Timer(id, status) => TimedOut(l, id, status)
  }

  function Run(capacity: nat, events: seq<Event>): Ledger {
    if events == [] then Ledger(capacity, map[], map[], [])
    else Step(Run(capacity, events[..|events| - 1]), events[|events| - 1])
  }

  /** Command ids are not empty and distinct, and a publication's result is about a command created before. */
  ghost predicate Ordered(events: seq<Event>) {
    && DistinctIds(events)
    && (forall j :: 0 <= j < |events| && events[j].Published? ==> events[j].id in CreatedIds(events[..j]))
  }

  ghost predicate DistinctIds(events: seq<Event>) {
    && (forall i :: 0 <= i < |events| && events[i].New? ==> events[i].id != "")
    && (forall i, j :: 0 <= i < j < |events| && events[i].New? && events[j].New? ==> events[i].id != events[j].id)
  }

  function CreatedIds(events: seq<Event>): set<Id> { set e | e in events && e.New? :: e.id }

  /** After a final status nothing more is sent about the command. */
  ghost predicate FinalIsLast(sent: seq<Message>) {
    forall i, j :: 0 <= i < j < |sent| && Final(sent[i]) ==> sent[j].id != sent[i].id
  }

  ghost predicate NoFinal(sent: seq<Message>, id: Id) {
    forall i :: 0 <= i < |sent| && sent[i].id == id ==> !Final(sent[i])
  }

  ghost predicate Consistent(l: Ledger, created: set<Id>) {
    && FinalIsLast(l.sent)
    && l.cache.Keys <= l.store.Keys <= created
    && (forall id :: id in l.store || id !in created ==> NoFinal(l.sent, id))
  }

  /** A status that is not final may be sent while none has been; a final one only as the command
      leaves the store. */
  lemma SendKeeps(l: Ledger, created: set<Id>, m: Message)
    requires Consistent(l, created) && NoFinal(l.sent, m.id) && m.id in created
    requires Final(m) ==> m.id !in l.store
    ensures Consistent(Sent(l, m), created)
  {}

  lemma RemovingKeeps(l: Ledger, created: set<Id>, id: Id)
    requires Consistent(l, created)
    ensures Consistent(Removed(l, id), created)
    ensures Consistent(l.(cache := l.cache - {id}), created)
  {}

  lemma StoringKeeps(l: Ledger, created: set<Id>, id: Id, status: int)
    requires Consistent(l, created) && id in l.store
    ensures Consistent(l.(store := l.store[id := status]), created)
  {}

  lemma CachingKeeps(l: Ledger, created: set<Id>, id: Id, status: int)
    requires Consistent(l, created) && id in l.store
    ensures Consistent(l.(cache := l.cache[id := status]), created)
    ensures Consistent(Cached(l, id, status), created)
  {}

  /** The result of a publication, other than 202, for a command no longer stored. */
  predicate Unexpected(l: Ledger, e: Event) {
    e.Published? && e.code != 202 && e.id !in l.store
  }

  lemma PublishedKeeps(l: Ledger, created: set<Id>, id: Id)
    requires Consistent(l, created)
    ensures Consistent(Accepted(l, id), created)
  {
    if id in l.store {
      var marked := l.(store := l.store[id := DELIVERED]);
      StoringKeeps(l, created, id, DELIVERED);
      CachingKeeps(marked, created, id, DELIVERED);
      SendKeeps(if id in l.cache then marked.(cache := l.cache[id := DELIVERED]) else Cached(marked, id, DELIVERED),
                created, Delivered(id));
    }
  }

  lemma RemovalKeeps(l: Ledger, created: set<Id>, m: Message)
    requires Consistent(l, created) && m.id in l.store
    ensures Consistent(Sent(Removed(l, m.id), m), created)
  {
    RemovingKeeps(l, created, m.id);
    SendKeeps(Removed(l, m.id), created, m);
  }

  lemma EventKeeps(l: Ledger, created: set<Id>, e: Event)
    requires Consistent(l, created) && !e.New? && !Unexpected(l, e)
    ensures Consistent(Step(l, e), created)
  {
    match e
    case Published(id, code) =>
      if code == 202 {
        PublishedKeeps(l, created, id);
      } else {
        RemovalKeeps(l, created, if code == 200 then Done(id) else Failed(id));
      }
    case Response(id) =>
      if id in l.store {
        RemovalKeeps(l, created, Done(id));
      }
    case Timer(id, status) =>
      if id in l.store && l.store[id] <= status {
        RemovalKeeps(l, created, if status == READY then ExpiredRead(id)
                                 else if status == DELIVERED then ExpiredDelivery(id) else Failed(id));
      } else {
        RemovingKeeps(l, created, id);
      }
  }

  lemma NewKeeps(l: Ledger, created: set<Id>, id: Id)
    requires Consistent(l, created) && id != "" && id !in created
    ensures Consistent(Update(l, id), created + {id})
  {
    SendKeeps(l, created + {id}, Pending(id));
    var p := Sent(l, Pending(id));
    var stored := p.(store := p.store[id := READY]);
    assert Consistent(stored, created + {id});
    CachingKeeps(stored, created + {id}, id, READY);
    assert Update(l, id) == Cached(stored, id, READY);
  }

  lemma FinalStays(sent: seq<Message>, more: seq<Message>, id: Id)
    requires sent <= more && !NoFinal(sent, id)
    ensures !NoFinal(more, id)
  {
    var i :| 0 <= i < |sent| && sent[i].id == id && Final(sent[i]);
    assert more[i] == sent[i];
  }

  lemma Appended(sent: seq<Message>, m: Message)
    ensures sent <= sent + [m] && |sent + [m]| == |sent| + 1
  {}

  lemma StepSends(l: Ledger, e: Event)
    ensures l.sent <= Step(l, e).sent && |Step(l, e).sent| <= |l.sent| + 1
  {
    var after := Step(l, e).sent;
    match e
    case New(id) =>
      Appended(l.sent, Pending(id));
      assert after == l.sent + [Pending(id)];
    case Published(id, code) =>
      var m := if code == 202 then Delivered(id) else if code == 200 then Done(id) else Failed(id);
      Appended(l.sent, m);
      assert after == l.sent || after == l.sent + [m];
    case Response(id) =>
      Appended(l.sent, Done(id));
      assert after == l.sent || after == l.sent + [Done(id)];
    case Timer(id, status) =>
      var m := if status == READY then ExpiredRead(id)
               else if status == DELIVERED then ExpiredDelivery(id) else Failed(id);
      Appended(l.sent, m);
      assert after == l.sent || after == l.sent + [m];
  }

  lemma EndsWithFinal(sent: seq<Message>, m: Message)
    requires Final(m)
    ensures !NoFinal(sent + [m], m.id)
  {
    assert (sent + [m])[|sent|] == m;
  }

  lemma LeavingIsFinal(l: Ledger, e: Event, id: Id)
    ensures id in l.store && id !in Step(l, e).store ==> !NoFinal(Step(l, e).sent, id)
    ensures e == New(id) && id != "" ==> id in Step(l, e).store
  {
    if id in l.store && id !in Step(l, e).store {
      match e
      case Published(r, code) =>
        EndsWithFinal(l.sent, if code == 200 then Done(id) else Failed(id));
      case Response(r) =>
        EndsWithFinal(l.sent, Done(id));
      case Timer(r, status) =>
        EndsWithFinal(l.sent, if status == READY then ExpiredRead(id)
                              else if status == DELIVERED then ExpiredDelivery(id) else Failed(id));
    }
  }

  /** No command is lost: every one that has left the store has had a final status sent. */
  lemma {:induction false} EveryCommandEnds(capacity: nat, events: seq<Event>, id: Id)
    requires DistinctIds(events) && id in CreatedIds(events) && id !in Run(capacity, events).store
    ensures !NoFinal(Run(capacity, events).sent, id)
  {
    var front, e := events[..|events| - 1], events[|events| - 1];
    var before := Run(capacity, front);
    LeavingIsFinal(before, e, id);
    StepSends(before, e);
    if id !in before.store && e != New(id) {
      assert id in CreatedIds(front);
      EveryCommandEnds(capacity, front, id);
      FinalStays(before.sent, Run(capacity, events).sent, id);
    }
  }

  // ---------- the last message about a command ----------

  /** The state before event k. */
  function Before(capacity: nat, events: seq<Event>, k: nat): Ledger
    requires k <= |events|
  {
    Run(capacity, events[..k])
  }

  lemma EventAt(capacity: nat, events: seq<Event>, k: nat)
    requires k < |events|
    ensures Before(capacity, events, k + 1) == Step(Before(capacity, events, k), events[k])
    ensures CreatedIds(events[..k + 1]) == CreatedIds(events[..k]) + if events[k].New? then {events[k].id} else {}
  {
    assert events[..k + 1][..k] == events[..k] && events[..k + 1] == events[..k] + [events[k]];
  }

  /** What has been sent before event k. */
  ghost function Told(capacity: nat, events: seq<Event>, k: nat): seq<Message>
    requires k <= |events|
  {
    Before(capacity, events, k).sent
  }

  ghost predicate AllExpected(capacity: nat, events: seq<Event>, n: nat)
    requires n <= |events|
  {
    forall k :: 0 <= k < n ==> !Unexpected(Before(capacity, events, k), events[k])
  }

  lemma {:induction false} ExpectedKeeps(capacity: nat, events: seq<Event>, n: nat)
    requires DistinctIds(events) && n <= |events| && AllExpected(capacity, events, n)
    ensures Consistent(Before(capacity, events, n), CreatedIds(events[..n]))
  {
    if n > 0 {
      var k := n - 1;
      ExpectedKeeps(capacity, events, k);
      EventAt(capacity, events, k);
      if events[k].New? {
        NewKeeps(Before(capacity, events, k), CreatedIds(events[..k]), events[k].id);
      } else {
        EventKeeps(Before(capacity, events, k), CreatedIds(events[..k]), events[k]);
      }
    } else {
      assert events[..0] == [];
    }
  }

  lemma StepAppends(l: Ledger, e: Event, t: Ledger)
    requires t == Step(l, e)
    ensures l.sent <= t.sent && |t.sent| <= |l.sent| + 1
  {
    StepSends(l, e);
  }

  lemma SentOneMore(capacity: nat, events: seq<Event>, k: nat)
    requires k < |events|
    ensures var before, after := Told(capacity, events, k), Told(capacity, events, k + 1);
            before <= after && |after| <= |before| + 1
  {
    EventAt(capacity, events, k);
    StepAppends(Before(capacity, events, k), events[k], Before(capacity, events, k + 1));
  }

  lemma PrefixOfPrefix(a: seq<Message>, b: seq<Message>, c: seq<Message>)
    requires a <= b && b <= c
    ensures a <= c
  {
  }

  lemma {:induction false} Growing(told: nat -> seq<Message>, k: nat, n: nat)
    requires k <= n && forall i :: k <= i < n ==> told(i) <= told(i + 1)
    ensures told(k) <= told(n)
    decreases n
  {
    if k < n {
      Growing(told, k, n - 1);
      PrefixOfPrefix(told(k), told(n - 1), told(n - 1 + 1));
    }
  }

  lemma SentGrows(capacity: nat, events: seq<Event>, k: nat, n: nat)
    requires k <= n <= |events|
    ensures Told(capacity, events, k) <= Told(capacity, events, n)
  {
    var told := (i: nat) => if i <= |events| then Told(capacity, events, i) else [];
    forall i | k <= i < n ensures told(i) <= told(i + 1) {
      SentOneMore(capacity, events, i);
    }
    Growing(told, k, n);
  }

  /** A second final status. */
  lemma UnexpectedIsSecond(capacity: nat, events: seq<Event>, k: nat)
    requires Ordered(events) && k < |events| && Unexpected(Before(capacity, events, k), events[k])
    ensures !FinalIsLast(Before(capacity, events, k + 1).sent)
  {
    var l, id := Before(capacity, events, k), events[k].id;
    EventAt(capacity, events, k);
    EveryCommandEnds(capacity, events[..k], id);
    var i :| 0 <= i < |l.sent| && l.sent[i].id == id && Final(l.sent[i]);
    var after := Before(capacity, events, k + 1).sent;
    assert after[i] == l.sent[i] && after[|l.sent|].id == id;
  }

  lemma FinalIsLastBefore(sent: seq<Message>, more: seq<Message>)
    requires sent <= more && FinalIsLast(more)
    ensures FinalIsLast(sent)
  {
    assert forall i :: 0 <= i < |sent| ==> sent[i] == more[i];
  }

  /** Over every run: the first final status of a command is the last thing sent about it (no second one, no
      "delivered" after it) if and only if no publication's result other than 202 arrives for a command that is no
      longer stored.  So it always is when every publication is accepted with 202. */
  lemma FinalStatusIsLast(capacity: nat, events: seq<Event>)
    requires Ordered(events)
    ensures FinalIsLast(Run(capacity, events).sent) <==>
            AllExpected(capacity, events, |events|)
    ensures (forall e :: e in events && e.Published? ==> e.code == 202) ==> FinalIsLast(Run(capacity, events).sent)
  {
    assert events[..|events|] == events;
    if AllExpected(capacity, events, |events|) {
      ExpectedKeeps(capacity, events, |events|);
    } else {
      var k :| 0 <= k < |events| && Unexpected(Before(capacity, events, k), events[k]);
      NotLastAfter(capacity, events, k);
    }
  }

  lemma NotLastAfter(capacity: nat, events: seq<Event>, k: nat)
    requires Ordered(events) && k < |events| && Unexpected(Before(capacity, events, k), events[k])
    ensures !FinalIsLast(Run(capacity, events).sent)
  {
    assert events[..|events|] == events;
    UnexpectedIsSecond(capacity, events, k);
    SentGrows(capacity, events, k + 1, |events|);
    if FinalIsLast(Run(capacity, events).sent) {
      FinalIsLastBefore(Before(capacity, events, k + 1).sent, Run(capacity, events).sent);
    }
  }

  // ---------- where each message comes from ----------

  /** The event that a message stands for. */
  predicate Cause(l: Ledger, e: Event, m: Message) {
    match m
    case Pending(id) => e == New(id)
    case Delivered(id) => e == Published(id, 202) && id in l.store
    case Done(id) => e == Published(id, 200) || (e == Response(id) && (id in l.cache || id in l.store))
    case Failed(id) =>
      || (e.Published? && e.id == id && e.code != 200 && e.code != 202)
      || (e.Timer? && e.id == id && e.status != 0 && e.status != 2 && id in l.store && l.store[id] <= e.status)
    case ExpiredRead(id) => e == Timer(id, 0) && id in l.store && l.store[id] <= 0
    case ExpiredDelivery(id) => e == Timer(id, 2) && id in l.store && l.store[id] <= 2
  }

  lemma PublishedSends(l: Ledger, id: Id, code: int, m: Message)
    ensures var sent := Step(l, Published(id, code)).sent;
            && (sent == l.sent + [m] <==> Cause(l, Published(id, code), m))
            && (sent == l.sent || |sent| == |l.sent| + 1)
  {
    var sent := Step(l, Published(id, code)).sent;
    if |sent| > |l.sent| {
      var last := sent[|l.sent|];
      assert sent == l.sent + [last];
      assert sent == l.sent + [m] ==> sent[|l.sent|] == m;
    }
  }

  lemma TimerSends(l: Ledger, id: Id, status: int, m: Message)
    ensures var sent := Step(l, Timer(id, status)).sent;
            && (sent == l.sent + [m] <==> Cause(l, Timer(id, status), m))
            && (sent == l.sent || |sent| == |l.sent| + 1)
  {
    var sent := Step(l, Timer(id, status)).sent;
    if |sent| > |l.sent| {
      var last := sent[|l.sent|];
      assert sent == l.sent + [last];
      assert sent == l.sent + [m] ==> sent[|l.sent|] == m;
    }
  }

  lemma OtherSends(l: Ledger, e: Event, m: Message)
    requires e.New? || e.Response?
    ensures Step(l, e).sent == l.sent + [m] <==> Cause(l, e, m)
    ensures Step(l, e).sent == l.sent || |Step(l, e).sent| == |l.sent| + 1
  {
    var sent := Step(l, e).sent;
    assert sent == l.sent + [m] ==> sent[|l.sent|] == m;
  }

  /** An event sends at most one message, and it is the one it is the cause of. */
  lemma EventSends(l: Ledger, e: Event, m: Message)
    ensures Step(l, e).sent == l.sent + [m] <==> Cause(l, e, m)
    ensures Step(l, e).sent == l.sent || |Step(l, e).sent| == |l.sent| + 1
  {
    if e.Published? {
      PublishedSends(l, e.id, e.code, m);
    } else if e.Timer? {
      TimerSends(l, e.id, e.status, m);
    } else {
      OtherSends(l, e, m);
    }
  }

  lemma NewIsCaused(capacity: nat, events: seq<Event>, k: nat, m: Message)
    requires k < |events| && m in Before(capacity, events, k + 1).sent && m !in Before(capacity, events, k).sent
    ensures Cause(Before(capacity, events, k), events[k], m)
  {
    SentOneMore(capacity, events, k);
    EventAt(capacity, events, k);
    EventSends(Before(capacity, events, k), events[k], m);
    AppendedOne(Before(capacity, events, k).sent, Before(capacity, events, k + 1).sent, m);
  }

  lemma AppendedOne(before: seq<Message>, after: seq<Message>, m: Message)
    requires before <= after && |after| <= |before| + 1 && m in after && m !in before
    ensures after == before + [m]
  {
    var i :| 0 <= i < |after| && after[i] == m;
    assert after[..|before|] == before && i == |before|;
  }

  /** Over every run, every message was caused by an event, in the state before it. */
  lemma {:induction false} EveryMessageCaused(capacity: nat, events: seq<Event>, n: nat, m: Message)
    requires n <= |events| && m in Before(capacity, events, n).sent
    ensures exists k :: 0 <= k < n && CausedBy(capacity, events, k, m)
    decreases n
  {
    if m in Before(capacity, events, n - 1).sent {
      EveryMessageCaused(capacity, events, n - 1, m);
    } else {
      NewIsCaused(capacity, events, n - 1, m);
      assert CausedBy(capacity, events, n - 1, m);
    }
  }

  predicate CausedBy(capacity: nat, events: seq<Event>, k: nat, m: Message)
    requires k < |events|
  {
    Cause(Before(capacity, events, k), events[k], m)
  }
}
