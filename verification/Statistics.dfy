/**
  The counters of the last day: src/rest/iot_statistic.cc.  Counters are kept by name in a bucket for each
  hour, and the first bucket goes when a twenty-fifth would be made.  The clock is an input.
 */
module Statistics {

  const HOURS := 24

  /** The start of the hour of a time, in seconds since the epoch. */
  function HourOf(time: nat): (hour: nat)
    ensures hour % 3600 == 0 && hour <= time < hour + 3600
  {
    time / 3600 * 3600
  }

  /** The samples of each counter in each hour. */
  type Window = map<nat, map<string, seq<real>>>

  // ---------- a counter ----------

  function Sum(s: seq<real>): real {
    if s == [] then 0.0 else Sum(s[..|s| - 1]) + s[|s| - 1]
  }

  /** The sum of no samples is 0, of one that sample, and of more that of their parts. */
  lemma {:induction false} SumIs(s: seq<real>, t: seq<real>, x: real)
    ensures Sum([]) == 0.0 && Sum([x]) == x && Sum(s + t) == Sum(s) + Sum(t)
  {
    assert [x][..0] == [];
    if t == [] {
      assert s + t == s;
    } else {
      var n := |t| - 1;
      SumIs(s, t[..n], x);
      assert (s + t)[..|s + t| - 1] == s + t[..n];
    }
  }

  function Minimum(s: seq<real>): real
    requires s != []
  {
    var last := s[|s| - 1];
    if |s| == 1 || last < Minimum(s[..|s| - 1]) then last else Minimum(s[..|s| - 1])
  }

  function Maximum(s: seq<real>): real
    requires s != []
  {
    var last := s[|s| - 1];
    if |s| == 1 || Maximum(s[..|s| - 1]) < last then last else Maximum(s[..|s| - 1])
  }

  /** They are samples, and no sample is outside them. */
  lemma {:induction false} Extremes(s: seq<real>)
    requires s != []
    ensures Minimum(s) in s && Maximum(s) in s
    ensures forall x :: x in s ==> Minimum(s) <= x <= Maximum(s)
  {
    var rest := s[..|s| - 1];
    assert s == rest + [s[|s| - 1]];
    if rest != [] {
      Extremes(rest);
    }
  }

  /** The count, sum and extremes of its samples. */
  class Accumulator {
    var count: nat
    var sum: real
    var min: real
    var max: real
    ghost var samples: seq<real>
    const hour: nat
    const name: string

    ghost predicate Valid()
      reads this
    {
      count == |samples| && sum == Sum(samples) && (count > 0 ==> min == Minimum(samples) && max == Maximum(samples))
    }

    constructor (hour: nat, name: string)
      ensures Valid() && samples == [] && this.hour == hour && this.name == name
    {
      count, sum, min, max := 0, 0.0, 0.0, 0.0;
      samples, this.hour, this.name := [], hour, name;
    }

    method Sample(value: real)
      requires Valid()
      modifies this
      ensures Valid() && samples == old(samples) + [value]
      ensures count == old(count) + 1 && sum == old(sum) + value
      ensures min == (if old(count) == 0 || value < old(min) then value else old(min))
      ensures max == (if old(count) == 0 || old(max) < value then value else old(max))
    {
      if count == 0 || value < min {
        min := value;
      }
      if count == 0 || max < value {
        max := value;
      }
      sum := sum + value;
      count := count + 1;
      assert (samples + [value])[..|samples|] == samples;
      samples := samples + [value];
    }
  }

  // ---------- the window ----------

  ghost predicate IsFirst(k: nat, keys: set<nat>) {
    k in keys && forall j :: j in keys ==> k <= j
  }

  lemma {:induction false} FirstExists(keys: set<nat>)
    requires keys != {}
    ensures exists k :: IsFirst(k, keys)
  {
    var x :| x in keys;
    var rest := keys - {x};
    if rest == {} {
      assert forall j :: j in keys ==> j == x || j in rest;
      assert IsFirst(x, keys);
    } else {
      FirstExists(rest);
      var k :| IsFirst(k, rest);
      assert forall j :: j in keys ==> j == x || j in rest;
      assert IsFirst(if x < k then x else k, keys);
    }
  }

  ghost function First(keys: set<nat>): (k: nat)
    requires keys != {}
    ensures IsFirst(k, keys)
  {
    FirstExists(keys);
    var k :| IsFirst(k, keys);
    k
  }

  /** Room for one more bucket. */
  ghost function Room<V>(w: map<nat, V>): map<nat, V> {
    if |w| >= HOURS then w - {First(w.Keys)} else w
  }

  /** A counter that is looked up is made when it is not there. */
  ghost function Looked(w: Window, hour: nat, name: string): Window {
    if hour in w then (if name in w[hour] then w else w[hour := w[hour][name := []]])
    else Room(w)[hour := map[name := []]]
  }

  ghost function Added(w: Window, hour: nat, name: string, value: real): Window {
    var v := Looked(w, hour, name);
    v[hour := v[hour][name := v[hour][name] + [value]]]
  }

  /** A sample makes or extends its own counter: every other counter in the buckets that are left is as it was. */
  lemma OthersKept(w: Window, hour: nat, name: string, value: real)
    ensures var v := Added(w, hour, name, value);
            && hour in v && name in v[hour]
            && v[hour][name] == (if hour in w && name in w[hour] then w[hour][name] else []) + [value]
            && forall h, n :: h in v && (h != hour || n != name) ==>
                 (n in v[h] <==> h in w && n in w[h]) && (n in v[h] ==> v[h][n] == w[h][n])
  {
  }

  ghost predicate Holds(bucket: map<string, Accumulator>, samples: map<string, seq<real>>, h: nat,
                        owned: set<Accumulator>)
    reads owned
  {
    && bucket.Keys == samples.Keys
    && (forall n :: n in bucket ==> bucket[n] in owned && Counts(bucket[n], h, n, samples[n]))
  }

  ghost predicate Counts(acc: Accumulator, h: nat, n: string, s: seq<real>)
    reads acc
  {
    acc.Valid() && acc.hour == h && acc.name == n && acc.samples == s
  }

  lemma HoldsWith(bucket: map<string, Accumulator>, samples: map<string, seq<real>>, h: nat, owned: set<Accumulator>,
                  acc: Accumulator)
    requires Holds(bucket, samples, h, owned) && Counts(acc, h, acc.name, [])
    ensures Holds(bucket[acc.name := acc], samples[acc.name := []], h, owned + {acc})
  {
  }

  lemma HoldsStill(bucket: map<string, Accumulator>, samples: map<string, seq<real>>, h: nat, owned: set<Accumulator>,
                   acc: Accumulator)
    requires Holds(bucket, samples, h, owned)
    ensures Holds(bucket, samples, h, owned + {acc})
  {
  }

  class IoTStatistic {
    var enabled: bool
    var accumulators: map<nat, map<string, Accumulator>>
    ghost var samples: Window
    ghost var owned: set<Accumulator>

    /** Each counter is an object of its own and holds the samples of its hour and name. */
    ghost predicate Valid()
      reads this, owned
    {
      && samples.Keys == accumulators.Keys
      && (forall h :: h in accumulators ==> Holds(accumulators[h], samples[h], h, owned))
    }

    constructor ()
      ensures Valid() && enabled && samples == map[] && owned == {}
    {
      enabled, accumulators, samples, owned := true, map[], map[], {};
    }

    /** Removes the first bucket when there are as many as hours in a day. */
    method Reset()
      requires Valid()
      modifies this`accumulators, this`samples
      ensures Valid() && samples == Room(old(samples)) && accumulators == Room(old(accumulators))
    {
      assert |accumulators| == |accumulators.Keys| == |samples.Keys| == |samples|;
      if |accumulators| >= HOURS {
        var first := FirstKey(accumulators.Keys);
        accumulators := accumulators - {first};
        samples := samples - {first};
      }
    }

    /** A new counter goes into the bucket of its hour. */
    method InsertCounter(acc: Accumulator)
      requires Valid() && acc.Valid() && acc.samples == [] && acc.hour in accumulators
               && acc.name !in accumulators[acc.hour]
      modifies this`accumulators, this`samples, this`owned
      ensures Valid() && owned == old(owned) + {acc}
      ensures accumulators == old(accumulators)[acc.hour := old(accumulators)[acc.hour][acc.name := acc]]
      ensures samples == old(samples)[acc.hour := old(samples)[acc.hour][acc.name := []]]
    {
      HoldsWith(accumulators[acc.hour], samples[acc.hour], acc.hour, owned, acc);
      forall h | h in accumulators ensures Holds(accumulators[h], samples[h], h, owned + {acc}) {
        HoldsStill(accumulators[h], samples[h], h, owned, acc);
      }
      owned := owned + {acc};
      samples := samples[acc.hour := samples[acc.hour][acc.name := []]];
      accumulators := accumulators[acc.hour := accumulators[acc.hour][acc.name := acc]];
    }

    /** A new counter goes into a bucket of its own. */
    method InsertBucket(acc: Accumulator)
      requires Valid() && acc.Valid() && acc.samples == [] && acc.hour !in accumulators
      modifies this`accumulators, this`samples, this`owned
      ensures Valid() && owned == old(owned) + {acc}
      ensures accumulators == old(accumulators)[acc.hour := map[acc.name := acc]]
      ensures samples == old(samples)[acc.hour := map[acc.name := []]]
    {
      owned := owned + {acc};
      samples := samples[acc.hour := map[acc.name := []]];
      accumulators := accumulators[acc.hour := map[acc.name := acc]];
    }

    /** The counter of a name in the hour of the clock, made if need be; none when disabled. */
    method Lookup(name: string, now: nat) returns (acc: Accumulator?)
      requires Valid()
      modifies this`accumulators, this`samples, this`owned
      ensures Valid() && fresh(owned - old(owned))
      ensures !enabled ==> acc == null && samples == old(samples)
      ensures enabled ==>
                samples == Looked(old(samples), HourOf(now), name)
                && HourOf(now) in accumulators && name in accumulators[HourOf(now)]
                    && acc == accumulators[HourOf(now)][name]
    {
      if !enabled {
        return null;
      }
      var hour := HourOf(now);
      if hour in accumulators {
        if name in accumulators[hour] {
          acc := accumulators[hour][name];
        } else {
          acc := new Accumulator(hour, name);
          InsertCounter(acc);
        }
      } else {
        Reset();
        acc := new Accumulator(hour, name);
        InsertBucket(acc);
      }
    }

    /** A sample for one counter goes into no other. */
    method Feed(hour: nat, name: string, value: real)
      requires Valid() && hour in accumulators && name in accumulators[hour]
      modifies this`samples, accumulators[hour][name]
      ensures Valid() && samples == old(samples)[hour := old(samples)[hour][name := old(samples)[hour][name] + [value]]]
    {
      var acc := accumulators[hour][name];
      acc.Sample(value);
      forall h | h in accumulators && h != hour ensures Holds(accumulators[h], samples[h], h, owned) {
        assert forall n :: n in accumulators[h] ==> accumulators[h][n] != acc;
      }
      ghost var bucket := samples[hour][name := samples[hour][name] + [value]];
      assert Holds(accumulators[hour], bucket, hour, owned);
      samples := samples[hour := bucket];
    }

    /** Gives a sample to the counter of a name in the hour of the clock. */
    method Add(name: string, value: real, now: nat)
      requires Valid()
      modifies this`accumulators, this`samples, this`owned, owned
      ensures Valid() && fresh(owned - old(owned))
      ensures samples == if enabled then Added(old(samples), HourOf(now), name, value) else old(samples)
      ensures enabled ==>
                && HourOf(now) in samples && name in samples[HourOf(now)]
                && samples[HourOf(now)][name]
                   == (if HourOf(now) in old(samples) && name in old(samples)[HourOf(now)]
                       then old(samples)[HourOf(now)][name] else []) + [value]
    {
      if enabled {
        var acc := Lookup(name, now);
        Feed(HourOf(now), name, value);
      }
    }
  }

  method FirstKey(keys: set<nat>) returns (first: nat)
    requires keys != {}
    ensures first == First(keys)
  {
    var rest := keys;
    first :| first in rest;
    while rest != {}
      invariant first in keys && rest <= keys
      invariant forall k :: k in keys && k !in rest ==> first <= k
      decreases |rest|
    {
      var k :| k in rest;
      if k < first {
        first := k;
      }
      rest := rest - {k};
    }
  }

  // ---------- runs ----------

  /** One use of the statistics: a sample, or a counter only looked up. */
  datatype Use = Give(now: nat, name: string, value: real) | Look(now: nat, name: string)

  ghost function Step(w: Window, u: Use): Window {
    match u
    case Give(now, name, value) => Added(w, HourOf(now), name, value)
    case Look(now, name) => Looked(w, HourOf(now), name)
  }

  ghost function After(us: seq<Use>): Window {
    if us == [] then map[] else Step(After(us[..|us| - 1]), us[|us| - 1])
  }

  ghost function HoursOf(us: seq<Use>): set<nat> {
    if us == [] then {} else HoursOf(us[..|us| - 1]) + {HourOf(us[|us| - 1].now)}
  }

  /** The samples given for a name within an hour, in order. */
  function Given(us: seq<Use>, hour: nat, name: string): seq<real> {
    if us == [] then []
    else
      var u := us[|us| - 1];
      Given(us[..|us| - 1], hour, name) + if u.Give? && HourOf(u.now) == hour && u.name == name then [u.value] else []
  }

  function NamesOf(us: seq<Use>, hour: nat): set<string> {
    if us == [] then {}
    else
      var u := us[|us| - 1];
      NamesOf(us[..|us| - 1], hour) + if HourOf(u.now) == hour then {u.name} else {}
  }

  ghost predicate Forward(us: seq<Use>) {
    forall i, j :: 0 <= i < j < |us| ==> us[i].now <= us[j].now
  }

  lemma RoomIsMade(w: Window)
    requires |w| <= HOURS
    ensures |Room(w)| == if |w| == HOURS then HOURS - 1 else |w|
    ensures Room(w).Keys <= w.Keys && |w| == |w.Keys|
    ensures Room(w).Keys == if |w| == HOURS then w.Keys - {First(w.Keys)} else w.Keys
  {
    assert Room(w).Keys == if |w| == HOURS then w.Keys - {First(w.Keys)} else w.Keys;
    assert |w| == |w.Keys| && |Room(w)| == |Room(w).Keys|;
  }

  lemma StepKeys(w: Window, u: Use)
    ensures var hour := HourOf(u.now);
            Step(w, u).Keys == if hour in w then w.Keys else Room(w).Keys + {hour}
  {
  }

  /** Whatever the clock does there are never more buckets than hours in a day, each is for an hour in which
      the statistics were used, and the last of these has one. */
  lemma {:induction false} NeverMoreThanADay(us: seq<Use>)
    ensures |After(us)| <= 24 && After(us).Keys <= HoursOf(us)
    ensures forall h :: h in After(us) ==> h % 3600 == 0
    ensures us != [] ==> HourOf(us[|us| - 1].now) in After(us)
  {
    if us != [] {
      var w, u := After(us[..|us| - 1]), us[|us| - 1];
      NeverMoreThanADay(us[..|us| - 1]);
      RoomIsMade(w);
      StepKeys(w, u);
      var keys := Step(w, u).Keys;
      assert |Step(w, u)| == |keys| && |w| == |w.Keys| && |Room(w)| == |Room(w).Keys|;
    }
  }

  /** The buckets are for the latest hours: as many as a day has, if that many were used. */
  ghost predicate Latest(keys: set<nat>, hours: set<nat>) {
    && keys <= hours
    && |keys| == (if |hours| < 24 then |hours| else 24)
    && forall h, k :: h in hours && h !in keys && k in keys ==> h < k
  }

  lemma {:induction false} HoursBefore(us: seq<Use>, now: nat)
    requires forall u :: u in us ==> u.now <= now
    ensures forall h :: h in HoursOf(us) ==> h <= HourOf(now)
  {
    if us != [] {
      var u := us[|us| - 1];
      assert u in us;
      HourMonotone(u.now, now);
      HoursBefore(us[..|us| - 1], now);
    }
  }

  lemma HourMonotone(a: nat, b: nat)
    requires a <= b
    ensures HourOf(a) <= HourOf(b)
  {
  }

  /** An hour that is not over and has no bucket is a new one. */
  lemma NewHour(keys: set<nat>, hours: set<nat>, hour: nat)
    requires Latest(keys, hours) && (forall h :: h in hours ==> h <= hour) && hour !in keys
    ensures hour !in hours
  {
    if hours != {} {
      assert |hours| > 0;
      assert keys != {};
      var k :| k in keys;
    }
  }

  lemma LatestWith(keys: set<nat>, hours: set<nat>, room: set<nat>, hour: nat)
    requires Latest(keys, hours) && hour !in hours && forall h :: h in hours ==> h <= hour
    requires if |keys| == HOURS then keys != {} && room == keys - {First(keys)} else room == keys
    ensures Latest(room + {hour}, hours + {hour})
  {
    assert |hours + {hour}| == |hours| + 1 && |room + {hour}| == |room| + 1;
    var all, kept := hours + {hour}, room + {hour};
    forall h, k | h in all && h !in kept && k in kept ensures h < k {
      assert h in hours && (k == hour || k in keys);
    }
  }

  lemma LatestStep(w: Window, hours: set<nat>, u: Use)
    requires Latest(w.Keys, hours) && |w| <= HOURS && forall h :: h in hours ==> h <= HourOf(u.now)
    ensures Latest(Step(w, u).Keys, hours + {HourOf(u.now)})
    ensures HourOf(u.now) !in w ==> HourOf(u.now) !in hours
  {
    var hour := HourOf(u.now);
    StepKeys(w, u);
    if hour in w {
      assert hours + {hour} == hours;
    } else {
      NewHour(w.Keys, hours, hour);
      RoomIsMade(w);
      LatestWith(w.Keys, hours, Room(w).Keys, hour);
    }
  }

  /** When the clock does not go back, the buckets are those of the latest hours the statistics were used in,
      up to a day of them, and each counter in them has exactly the samples given in its hour. */
  lemma {:induction false} WindowIsLatest(us: seq<Use>)
    requires Forward(us)
    ensures Latest(After(us).Keys, HoursOf(us))
  {
    if us != [] {
      var before, u := us[..|us| - 1], us[|us| - 1];
      WindowIsLatest(before);
      NeverMoreThanADay(before);
      assert forall v :: v in before ==> v.now <= u.now;
      HoursBefore(before, u.now);
      LatestStep(After(before), HoursOf(before), u);
    }
  }

  lemma {:induction false} NothingGiven(us: seq<Use>, hour: nat, name: string)
    requires hour !in HoursOf(us)
    ensures Given(us, hour, name) == [] && NamesOf(us, hour) == {}
  {
    if us != [] {
      NothingGiven(us[..|us| - 1], hour, name);
    }
  }

  lemma {:induction false} CountersAreExact(us: seq<Use>, hour: nat, name: string)
    requires Forward(us) && hour in After(us)
    ensures name in After(us)[hour] <==> name in NamesOf(us, hour)
    ensures name in After(us)[hour] ==> After(us)[hour][name] == Given(us, hour, name)
  {
    var before, u := us[..|us| - 1], us[|us| - 1];
    var w := After(before);
    CounterStep(w, u, hour, name);
    if hour in w {
      CountersAreExact(before, hour, name);
      if name !in w[hour] {
        NothingGivenUnnamed(before, hour, name);
      }
    } else {
      assert before + [u] == us;
      NotUsedBefore(before, u);
      NothingGiven(before, hour, name);
    }
  }

  /** When the clock does not go back, an hour without a bucket was not used before. */
  lemma NotUsedBefore(us: seq<Use>, u: Use)
    requires Forward(us + [u]) && HourOf(u.now) !in After(us)
    ensures HourOf(u.now) !in HoursOf(us)
  {
    assert forall i, j :: 0 <= i < j < |us| ==> (us + [u])[i].now == us[i].now && (us + [u])[j].now == us[j].now;
    WindowIsLatest(us);
    NeverMoreThanADay(us);
    forall v | v in us ensures v.now <= u.now {
      var i :| 0 <= i < |us| && us[i] == v;
      assert (us + [u])[i] == v && (us + [u])[|us|] == u;
    }
    HoursBefore(us, u.now);
    LatestStep(After(us), HoursOf(us), u);
  }

  ghost function SamplesIn(w: Window, hour: nat, name: string): seq<real> {
    if hour in w && name in w[hour] then w[hour][name] else []
  }

  lemma CounterStep(w: Window, u: Use, hour: nat, name: string)
    requires hour in Step(w, u)
    ensures hour !in w ==> HourOf(u.now) == hour
    ensures name in Step(w, u)[hour] <==> (hour in w && name in w[hour]) || (HourOf(u.now) == hour && u.name == name)
    ensures SamplesIn(Step(w, u), hour, name) ==
            SamplesIn(w, hour, name) + if u.Give? && HourOf(u.now) == hour && u.name == name then [u.value] else []
  {
    StepKeys(w, u);
  }

  lemma {:induction false} NothingGivenUnnamed(us: seq<Use>, hour: nat, name: string)
    requires name !in NamesOf(us, hour)
    ensures Given(us, hour, name) == []
  {
    if us != [] {
      NothingGivenUnnamed(us[..|us| - 1], hour, name);
    }
  }
}
