/**
  Listing devices through the manager: one offset and one limit split over a list of agents, each of
  which pages through its own devices (get_all_devices_json of src/services/admin_mgmt_service.cc and
  of src/services/admin_service.cc, and the clamping in `devices` of the latter).
 */
module DevicePaging {

  type Device = string

  /** What an agent has, or None if it does not answer 200. */
  datatype Agent = Answers(devices: seq<Device>) | Fails

  const LIMIT_DEFAULT: int := 20
  const LIMIT_MAX: int := 1000

  function Min(a: int, b: int): int { if a < b then a else b }
  function Max(a: int, b: int): int { if a < b then b else a }

  // ---------- one agent ----------

  /** The requested limit as `devices` uses it: -1 asks for none, 0 for all. */
  method ClampLimit(requested: int) returns (limit: int)
    ensures -1 <= limit <= 1000
    ensures -1 <= requested <= 1000 ==> limit == requested
    ensures requested > 1000 ==> limit == 1000
    ensures requested < -1 ==> limit == 20
  {
    limit := requested;
    if limit < -1 {
      limit := LIMIT_DEFAULT;
    } else if limit > LIMIT_MAX {
      limit := LIMIT_MAX;
    }
  }

  /** At most `n` elements of s from position `from`. */
  function Clip<T>(s: seq<T>, from: nat, n: nat): seq<T> {
    s[Min(from, |s|)..Min(from + n, |s|)]
  }

  /** The slice of a list that a limit and an offset stand for. */
  function Slice<T>(s: seq<T>, limit: int, offset: nat): seq<T> {
    if limit < 0 then [] else Clip(s, offset, if limit == 0 then |s| else limit)
  }

  /** A slice, element by element: none for a negative limit, all from the offset for 0, else at most the limit. */
  lemma SliceIs<T>(s: seq<T>, limit: int, offset: nat)
    ensures var r := Slice(s, limit, offset);
            && |r| == (if limit < 0 || offset >= |s| then 0
                       else if limit == 0 || limit >= |s| - offset then |s| - offset else limit)
            && forall i :: 0 <= i < |r| ==> offset + i < |s| && r[i] == s[offset + i]
  {
  }

  /** The store's cursor: it skips `offset` devices and returns up to `limit`, or all the rest when it is 0. */
  method Cursor(all: seq<Device>, limit: nat, offset: nat) returns (devices: seq<Device>)
    ensures devices == Slice(all, limit, offset)
    ensures limit == 0 && offset <= |all| ==> devices == all[offset..]
    ensures limit > 0 && offset <= |all| ==>
              devices == all[offset..if limit < |all| - offset then offset + limit else |all|]
    ensures offset > |all| ==> devices == []
  {
    devices := [];
    var i := offset;
    while i < |all| && (limit == 0 || |devices| < limit)
      invariant offset <= i && |devices| == i - offset
      invariant i <= |all| ==> devices == all[offset..i]
      invariant i > |all| ==> i == offset
      invariant limit > 0 ==> |devices| <= limit
    {
      assert all[offset..i + 1] == all[offset..i] + [all[i]];
      devices := devices + [all[i]];
      i := i + 1;
    }
  }

  /** An agent's answer: the number of all its devices, and a page of them.  A negative offset counts as
      none, and a limit out of range as the default or the largest. */
  method AgentDevices(all: seq<Device>, limitParameter: int, offsetParameter: int)
    returns (count: nat, devices: seq<Device>)
    ensures count == |all|
    ensures -1 <= limitParameter <= 1000 ==> devices == Slice(all, limitParameter, Max(0, offsetParameter))
    ensures limitParameter > 1000 ==> devices == Slice(all, 1000, Max(0, offsetParameter))
    ensures limitParameter < -1 ==> devices == Slice(all, 20, Max(0, offsetParameter))
  {
    var limit := ClampLimit(limitParameter);
    var offset: nat := 0;
    if offsetParameter >= 0 {
      offset := offsetParameter;
    }
    count := |all|;
    devices := [];
    if limit >= 0 {
      devices := Cursor(all, limit, offset);
    }
  }

  // ---------- all agents ----------

  /** The devices of all the agents that answer. */
  function All(agents: seq<Agent>): seq<Device> {
    if agents == [] then []
    else (match agents[0] case Answers(ds) => ds case Fails => []) + All(agents[1..])
  }

  /** How many devices the agents have that the offset skips whole, with offset to spare. */
  function Skipped(agents: seq<Agent>, offset: nat): nat {
    if agents == [] then 0
    else match agents[0]
      case Fails => Skipped(agents[1..], offset)
      case Answers(ds) => if offset > |ds| then |ds| + Skipped(agents[1..], offset - |ds|) else 0
  }

  /** What the manager returns: the limit is spent on skipped devices too. */
  function Merged(agents: seq<Agent>, limit: int, offset: nat): seq<Device> {
    if limit < 0 then []
    else if limit == 0 then Clip(All(agents), offset, |All(agents)|)
    else Clip(All(agents), offset, Max(0, limit - Skipped(agents, offset)))
  }

  /** What remains of limit and offset after an agent with n devices has answered. */
  function OffsetAfter(n: nat, offset: nat): nat { if offset > n then offset - n else 0 }

  function LimitAfter(n: nat, limit: int, offset: nat): int {
    if limit <= 0 then limit
    else
      var spent := if offset > n then n else n - offset;
      if limit > spent then limit - spent else -1
  }

  lemma StepPastOffset(ds: seq<Device>, rest: seq<Agent>, limit: int, offset: nat)
    requires limit > 0 && offset > |ds|
    ensures Merged([Answers(ds)] + rest, limit, offset)
            == Slice(ds, limit, offset) + Merged(rest, LimitAfter(|ds|, limit, offset), OffsetAfter(|ds|, offset))
  {
    var agents := [Answers(ds)] + rest;
    assert agents[1..] == rest;
    SkippedWhole(ds, All(rest), offset, Max(0, limit - Skipped(agents, offset)));
  }

  lemma StepWithin(ds: seq<Device>, rest: seq<Agent>, limit: int, offset: nat)
    requires limit > 0 && offset <= |ds|
    ensures Merged([Answers(ds)] + rest, limit, offset)
            == Slice(ds, limit, offset) + Merged(rest, LimitAfter(|ds|, limit, offset), OffsetAfter(|ds|, offset))
  {
    var agents := [Answers(ds)] + rest;
    assert agents[1..] == rest;
    SkippedNone(rest);
    ClipJoin(ds, All(rest), offset, limit);
  }

  lemma StepUnlimited(ds: seq<Device>, rest: seq<Agent>, offset: nat)
    ensures Merged([Answers(ds)] + rest, 0, offset) == Slice(ds, 0, offset) + Merged(rest, 0, OffsetAfter(|ds|, offset))
  {
    var agents := [Answers(ds)] + rest;
    assert agents[1..] == rest;
    if offset > |ds| {
      SkippedWhole(ds, All(rest), offset, |All(agents)|);
    } else {
      ClipJoin(ds, All(rest), offset, |All(agents)|);
    }
  }

  /** The first answer and the rest make up the whole. */
  lemma MergedStep(ds: seq<Device>, rest: seq<Agent>, limit: int, offset: nat)
    ensures Merged([Answers(ds)] + rest, limit, offset)
            == Slice(ds, limit, offset) + Merged(rest, LimitAfter(|ds|, limit, offset), OffsetAfter(|ds|, offset))
    ensures All([Answers(ds)] + rest) == ds + All(rest)
  {
    assert ([Answers(ds)] + rest)[1..] == rest;
    if limit == 0 {
      StepUnlimited(ds, rest, offset);
    } else if limit > 0 && offset > |ds| {
      StepPastOffset(ds, rest, limit, offset);
    } else if limit > 0 {
      StepWithin(ds, rest, limit, offset);
    }
  }

  /** An agent that fails makes no difference. */
  lemma MergedFails(rest: seq<Agent>, limit: int, offset: nat)
    ensures Merged([Fails] + rest, limit, offset) == Merged(rest, limit, offset)
    ensures All([Fails] + rest) == All(rest)
  {
    var agents := [Fails] + rest;
    assert agents[1..] == rest;
    assert All(agents) == All(rest);
    assert Skipped(agents, offset) == Skipped(rest, offset);
  }

  lemma SkippedNone(agents: seq<Agent>)
    ensures Skipped(agents, 0) == 0
  {}

  lemma SkippedWhole(a: seq<Device>, b: seq<Device>, from: nat, n: nat)
    requires from > |a|
    ensures Clip(a + b, from, n) == Clip(b, from - |a|, n)
  {}

  lemma ClipJoin(a: seq<Device>, b: seq<Device>, from: nat, n: nat)
    requires from <= |a|
    ensures Clip(a + b, from, n) == Clip(a, from, n) + Clip(b, 0, Max(0, n - (|a| - from)))
  {}

  /** The pages of the agents in turn, each with what is left of limit and offset. */
  function Pages(agents: seq<Agent>, limit: int, offset: nat): seq<Device> {
    if agents == [] then []
    else match agents[0]
      case Fails => Pages(agents[1..], limit, offset)
      case Answers(ds) =>
        Slice(ds, limit, offset) + Pages(agents[1..], LimitAfter(|ds|, limit, offset), OffsetAfter(|ds|, offset))
  }

  lemma {:induction false} PagesAreMerged(agents: seq<Agent>, limit: int, offset: nat)
    ensures Pages(agents, limit, offset) == Merged(agents, limit, offset)
  {
    if agents != [] {
      assert agents == [agents[0]] + agents[1..];
      match agents[0]
      case Fails =>
        MergedFails(agents[1..], limit, offset);
        PagesAreMerged(agents[1..], limit, offset);
      case Answers(ds) =>
        MergedStep(ds, agents[1..], limit, offset);
        PagesAreMerged(agents[1..], LimitAfter(|ds|, limit, offset), OffsetAfter(|ds|, offset));
    }
  }

  function Failed(agents: seq<Agent>): nat {
    if agents == [] then 0 else Failed(agents[..|agents| - 1]) + if agents[|agents| - 1].Fails? then 1 else 0
  }

  /** The manager's bookkeeping after an answer. */
  method Spend(limit: int, offset: nat, count: nat) returns (limitI: int, offsetI: nat)
    ensures offsetI == OffsetAfter(count, offset) && limitI == LimitAfter(count, limit, offset)
    ensures limit > 0 ==> limitI != 0 && limitI <= limit
  {
    var countI := count;
    limitI, offsetI := limit, offset;
    if offsetI > 0 {
      if offsetI > countI {
        offsetI := offsetI - countI;
      } else {
        countI := countI - offsetI;
        offsetI := 0;
      }
    }
    if limitI > 0 {
      if limitI > countI {
        limitI := limitI - countI;
      } else {
        limitI := -1;
      }
    }
  }

  lemma {:induction false} AllMore(agents: seq<Agent>, x: Agent)
    ensures All(agents + [x]) == All(agents) + if x.Answers? then x.devices else []
  {
    if agents != [] {
      AllMore(agents[1..], x);
      assert (agents + [x])[1..] == agents[1..] + [x];
    } else {
      assert ([] + [x])[1..] == [] && [] + [x] == [x];
    }
  }

  /** Devices are counted for the agents that answer, in their order; failures for those that do not. */
  lemma AllAndFailed(agents: seq<Agent>, x: Agent)
    ensures All([]) == [] && Failed([]) == 0
    ensures All(agents + [x]) == All(agents) + if x.Answers? then x.devices else []
    ensures Failed(agents + [x]) == Failed(agents) + if x.Fails? then 1 else 0
  {
    AllMore(agents, x);
    assert (agents + [x])[..|agents|] == agents;
  }

  /** What one agent takes from the pages still to come. */
  lemma NextPage(agents: seq<Agent>, i: nat, limit: int, offset: nat)
    requires i < |agents|
    ensures Failed(agents[..i + 1]) == Failed(agents[..i]) + if agents[i].Fails? then 1 else 0
    ensures agents[i].Fails? ==>
              Pages(agents[i..], limit, offset) == Pages(agents[i + 1..], limit, offset)
              && |All(agents[i..])| == |All(agents[i + 1..])|
    ensures agents[i].Answers? ==>
              var ds := agents[i].devices;
              Pages(agents[i..], limit, offset)
              == Slice(ds, limit, offset)
                  + Pages(agents[i + 1..], LimitAfter(|ds|, limit, offset), OffsetAfter(|ds|, offset))
              && |All(agents[i..])| == |ds| + |All(agents[i + 1..])|
  {
    assert agents[i..][1..] == agents[i + 1..] && agents[..i + 1][..i] == agents[..i];
  }

  /** The manager's loop over its agents. */
  method GetAllDevices(agents: seq<Agent>, limit: int, offset: nat)
    returns (devices: seq<Device>, totalCount: nat, failed: nat)
    requires -1 <= limit <= LIMIT_MAX
    ensures devices == Merged(agents, limit, offset)
    ensures totalCount == |All(agents)| && failed == Failed(agents)
  {
    devices, totalCount, failed := [], 0, 0;
    var limitI, offsetI := limit, offset;
    var i := 0;
    ghost var whole, todo := Pages(agents, limit, offset), Pages(agents, limit, offset);
    assert agents[0..] == agents;
    while i < |agents|
      invariant i <= |agents| && -1 <= limitI <= LIMIT_MAX && offsetI >= 0
      invariant limit > 0 ==> limitI != 0
      invariant todo == Pages(agents[i..], limitI, offsetI) && whole == devices + todo
      invariant totalCount + |All(agents[i..])| == |All(agents)|
      invariant failed == Failed(agents[..i])
    {
      NextPage(agents, i, limitI, offsetI);
      if agents[i].Fails? {
        failed := failed + 1;
      } else {
        var countI, page := AgentDevices(agents[i].devices, limitI, offsetI);
        totalCount := totalCount + countI;
        limitI, offsetI := Spend(limitI, offsetI, countI);
        todo := Pages(agents[i + 1..], limitI, offsetI);
        Associate(devices, page, todo);
        devices := devices + page;
      }
      i := i + 1;
    }
    assert agents[..i] == agents;
    PagesAreMerged(agents, limit, offset);
  }

  lemma Associate(a: seq<Device>, b: seq<Device>, c: seq<Device>)
    ensures a + (b + c) == (a + b) + c
  {
  }

  // ---------- how that relates to the slice asked for ----------

  lemma {:induction false} SkippedBounds(agents: seq<Agent>, offset: nat)
    ensures Skipped(agents, offset) <= |All(agents)|
    ensures Skipped(agents, offset) > 0 ==> Skipped(agents, offset) < offset
  {
    if agents != [] {
      match agents[0]
      case Fails => SkippedBounds(agents[1..], offset);
      case Answers(ds) =>
        if offset > |ds| {
          SkippedBounds(agents[1..], offset - |ds|);
        }
    }
  }

  /** The manager never returns anything but a prefix of the slice asked for, and never more than the
      limit; with no limit, or a negative one, it returns exactly that slice. */
  lemma MergedIsPrefix(agents: seq<Agent>, limit: int, offset: nat)
    ensures Merged(agents, limit, offset) <= Slice(All(agents), limit, offset)
    ensures limit > 0 ==> |Merged(agents, limit, offset)| <= limit
    ensures limit <= 0 ==> Merged(agents, limit, offset) == Slice(All(agents), limit, offset)
  {}

  /** It returns the slice asked for exactly when no agent was skipped whole with offset to spare, or
      the slice is empty, or all that is left after the offset fits in what the skips leave of the limit. */
  lemma MergedExact(agents: seq<Agent>, limit: int, offset: nat)
    requires limit > 0
    ensures Merged(agents, limit, offset) == Slice(All(agents), limit, offset) <==>
            || Skipped(agents, offset) == 0
            || |All(agents)| <= offset
            || |All(agents)| - offset <= limit - Skipped(agents, offset)
  {
    var all, s := All(agents), Skipped(agents, offset);
    if s > 0 && |all| > offset && |all| - offset > limit - s {
      assert |Merged(agents, limit, offset)| == Max(0, limit - s);
      assert |Slice(all, limit, offset)| == Min(limit, |all| - offset);
    }
  }

  /** In particular an offset within the first answering agent is always served exactly. */
  lemma {:induction false} FirstAgentServes(agents: seq<Agent>, k: nat, limit: int, offset: nat)
    requires k < |agents| && agents[k].Answers? && offset <= |agents[k].devices|
    requires forall i :: 0 <= i < k ==> agents[i].Fails?
    ensures Merged(agents, limit, offset) == Slice(All(agents), limit, offset)
  {
    FirstSkipsNothing(agents, k, offset);
    if limit > 0 {
      MergedExact(agents, limit, offset);
    }
  }

  lemma {:induction false} FirstSkipsNothing(agents: seq<Agent>, k: nat, offset: nat)
    requires k < |agents| && agents[k].Answers? && offset <= |agents[k].devices|
    requires forall i :: 0 <= i < k ==> agents[i].Fails?
    ensures Skipped(agents, offset) == 0
  {
    if k > 0 {
      FirstSkipsNothing(agents[1..], k - 1, offset);
    }
  }

  // ---------- walking through all pages ----------

  /** A page, and those after it. */
  function OnePage(agents: seq<Agent>, limit: nat, offset: nat, rest: seq<Device>): seq<Device> {
    Merged(agents, limit, offset) + rest
  }

  /** n pages in turn, each a limit further on. */
  function Walk(agents: seq<Agent>, limit: nat, offset: nat, n: nat): seq<Device>
    decreases n
  {
    if n == 0 then [] else OnePage(agents, limit, offset, Walk(agents, limit, offset + limit, n - 1))
  }

  /** n pages are enough for so many devices. */
  predicate Covers(limit: nat, offset: nat, n: nat, total: nat)
    decreases n
  {
    total <= offset || (n > 0 && Covers(limit, offset + limit, n - 1, total))
  }

  /** The page at an offset is all of the slice asked for. */
  predicate Served(agents: seq<Agent>, limit: nat, offset: nat) {
    var skipped, total := Skipped(agents, offset), |All(agents)|;
    skipped == 0 || total <= offset || total - offset <= limit - skipped
  }

  predicate AllServed(agents: seq<Agent>, limit: nat, offset: nat, n: nat)
    decreases n
  {
    n == 0 || (Served(agents, limit, offset) && AllServed(agents, limit, offset + limit, n - 1))
  }

  function Rest(s: seq<Device>, offset: nat): seq<Device> {
    s[Min(offset, |s|)..]
  }

  lemma RestSplits(s: seq<Device>, limit: nat, offset: nat)
    requires limit > 0
    ensures Rest(s, offset) == Slice(s, limit, offset) + Rest(s, offset + limit)
  {
  }

  /** A walk through enough pages shows every device, in order, if and only if every page is all of the slice
      asked for; otherwise it shows fewer. */
  lemma {:induction false} WalkComplete(agents: seq<Agent>, limit: nat, offset: nat, n: nat)
    requires limit > 0 && Covers(limit, offset, n, |All(agents)|)
    ensures Walk(agents, limit, offset, n) == Rest(All(agents), offset) <==> AllServed(agents, limit, offset, n)
    ensures |Walk(agents, limit, offset, n)| < |Rest(All(agents), offset)| <==> !AllServed(agents, limit, offset, n)
    decreases n
  {
    if n == 0 {
      NoWalk(agents, limit, offset);
    } else {
      WalkOn(agents, limit, offset, n);
      WalkComplete(agents, limit, offset + limit, n - 1);
      OnePageMore(agents, limit, offset, Walk(agents, limit, offset + limit, n - 1),
                  AllServed(agents, limit, offset + limit, n - 1));
    }
  }

  lemma NoWalk(agents: seq<Agent>, limit: nat, offset: nat)
    requires Covers(limit, offset, 0, |All(agents)|)
    ensures Walk(agents, limit, offset, 0) == Rest(All(agents), offset) == []
    ensures AllServed(agents, limit, offset, 0)
  {
  }

  lemma WalkOn(agents: seq<Agent>, limit: nat, offset: nat, n: nat)
    requires n > 0 && Covers(limit, offset, n, |All(agents)|)
    ensures Covers(limit, offset + limit, n - 1, |All(agents)|)
    ensures Walk(agents, limit, offset, n)
            == OnePage(agents, limit, offset, Walk(agents, limit, offset + limit, n - 1))
    ensures AllServed(agents, limit, offset, n)
            <==> Served(agents, limit, offset) && AllServed(agents, limit, offset + limit, n - 1)
  {
  }

  lemma OnePageMore(agents: seq<Agent>, limit: nat, offset: nat, rest: seq<Device>, served: bool)
    requires limit > 0
    requires rest == Rest(All(agents), offset + limit) <==> served
    requires |rest| < |Rest(All(agents), offset + limit)| <==> !served
    ensures OnePage(agents, limit, offset, rest) == Rest(All(agents), offset) <==>
            Served(agents, limit, offset) && served
    ensures |OnePage(agents, limit, offset, rest)| < |Rest(All(agents), offset)| <==>
            !(Served(agents, limit, offset) && served)
  {
    var all := All(agents);
    RestSplits(all, limit, offset);
    PageServed(agents, limit, offset);
    JoinExact(Merged(agents, limit, offset), Slice(all, limit, offset), rest, Rest(all, offset + limit));
  }

  lemma PageServed(agents: seq<Agent>, limit: nat, offset: nat)
    requires limit > 0
    ensures Merged(agents, limit, offset) <= Slice(All(agents), limit, offset)
    ensures Merged(agents, limit, offset) == Slice(All(agents), limit, offset) <==> Served(agents, limit, offset)
  {
    MergedIsPrefix(agents, limit, offset);
    MergedExact(agents, limit, offset);
  }

  lemma JoinExact(page: seq<Device>, slice: seq<Device>, rest: seq<Device>, tail: seq<Device>)
    requires page <= slice && (rest == tail || |rest| < |tail|)
    ensures page + rest == slice + tail <==> page == slice && rest == tail
    ensures |page + rest| < |slice + tail| <==> page != slice || |rest| < |tail|
  {
  }

  /** Walking through six devices of two agents two at a time never shows the last two. */
  lemma WalkLosesDevices(a: Device, b: Device, c: Device, d: Device, e: Device, f: Device)
    ensures var agents := [Answers([a, b, c]), Answers([d, e, f])];
            && All(agents) == [a, b, c, d, e, f]
            && Merged(agents, 2, 0) + Merged(agents, 2, 2) + Merged(agents, 2, 4) == [a, b, c, d]
  {
    var agents := [Answers([a, b, c]), Answers([d, e, f])];
    assert agents[1..] == [Answers([d, e, f])] && agents[1..][1..] == [];
    assert All(agents[1..]) == [d, e, f] + [];
    assert All(agents) == [a, b, c, d, e, f];
    FirstAgentServes(agents, 0, 2, 0);
    FirstAgentServes(agents, 0, 2, 2);
    assert Skipped(agents[1..], 1) == 0;
    assert Skipped(agents, 4) == 3;
    assert Merged(agents, 2, 4) == [];
  }
}
