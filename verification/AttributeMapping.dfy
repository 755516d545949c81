/**
  The mapping of attributes when a context element is filled: add_attribute in src/ngsi/ContextElement.cc.
  The mappings are taken as already parsed, with their names and types cleaned.
 */
module AttributeMapping {

  datatype Option<T> = None | Some(value: T)

  /** A metadata, or a member of a compound value. */
  datatype Item = Item(name: string, kind: string, value: string)

  datatype Attribute = Attribute(
    name: string, kind: string, value: string, parts: seq<Item>, asObject: bool, metadata: seq<Item>)

  /** A mapping's text: not JSON, JSON that is no attribute, or an attribute. */
  datatype Mapping = NotJson | NotAttribute | Target(name: string, kind: string, metadata: seq<Item>)

  datatype Entry = Entry(id: string, mapping: Mapping)

  /** The mappings of the device, if there is one, and of the service. */
  datatype Environment = Environment(device: map<string, Mapping>, service: seq<Entry>)

  const LOCATION := Item("location", "string", "WGS84")

  function FirstEntry(entries: seq<Entry>, name: string): Option<Mapping> {
    if entries == [] then None
    else if entries[0].id == name then Some(entries[0].mapping)
    else FirstEntry(entries[1..], name)
  }

  /** The device's mapping of a name goes before the service's, and of those the first counts. */
  function MappingOf(env: Environment, name: string): Option<Mapping> {
    if name in env.device then Some(env.device[name]) else FirstEntry(env.service, name)
  }

  /** The mapping of the first entry with the id, or none when no entry has it. */
  ghost predicate FirstWithId(entries: seq<Entry>, name: string, m: Option<Mapping>) {
    match m
    case None => forall k :: 0 <= k < |entries| ==> entries[k].id != name
    case Some(mapping) => exists k :: 0 <= k < |entries| && IsFirst(entries, k, name) && entries[k].mapping == mapping
  }

  ghost predicate IsFirst(entries: seq<Entry>, k: nat, name: string)
    requires k < |entries|
  {
    entries[k].id == name && forall j :: 0 <= j < k ==> entries[j].id != name
  }

  lemma {:induction false} FirstIsFirst(entries: seq<Entry>, name: string)
    ensures FirstWithId(entries, name, FirstEntry(entries, name))
  {
    if entries != [] {
      if entries[0].id == name {
        assert IsFirst(entries, 0, name);
      } else {
        var rest := entries[1..];
        FirstIsFirst(rest, name);
        if FirstEntry(rest, name).None? {
          assert forall k :: 0 < k < |entries| ==> entries[k] == rest[k - 1];
        } else {
          var k :| 0 <= k < |rest| && IsFirst(rest, k, name) && rest[k].mapping == FirstEntry(rest, name).value;
          assert forall j :: 0 < j <= k + 1 ==> entries[j] == rest[j - 1];
          assert IsFirst(entries, k + 1, name);
        }
      }
    }
  }

  /** The mapping of a name is the device's, and only when it has none the first of the service. */
  lemma MappingIsFirst(env: Environment, name: string)
    ensures name in env.device ==> MappingOf(env, name) == Some(env.device[name])
    ensures name !in env.device ==> FirstWithId(env.service, name, MappingOf(env, name))
  {
    FirstIsFirst(env.service, name);
  }

  function Typed(a: Attribute): Attribute {
    if a.kind == "" then a.(kind := "string") else a
  }

  predicate Empty(a: Attribute) {
    if a.kind == "compound" && !a.asObject then a.parts == [] else a.value == ""
  }

  function Commas(s: string): (r: string)
    ensures |r| == |s|
    ensures forall i :: 0 <= i < |s| ==> r[i] == if s[i] == '/' then ',' else s[i]
  {
    if s == "" then "" else [if s[0] == '/' then ',' else s[0]] + Commas(s[1..])
  }

  /** The name a mapped attribute gets: never the empty one. */
  function Landed(t: Mapping): string
    requires t.Target?
  {
    if t.name == "" then " " else t.name
  }

  function KindAfter(kind: string, t: Mapping): string
    requires t.Target?
  {
    if t.kind == "" || kind == "compound" then kind else t.kind
  }

  /** The attribute the recursion goes on with.  The flag of a compound held as an object is not kept. */
  function Mapped(a: Attribute, t: Mapping): Attribute
    requires t.Target?
  {
    var kind := KindAfter(a.kind, t);
    Attribute(
      Landed(t), kind,
      if kind == "compound" then (if a.asObject then a.value else " ")
      else if kind == "coords" then Commas(a.value) else a.value,
      if kind == "compound" && !a.asObject then a.parts else [],
      false,
      (if kind == "coords" then [LOCATION] else []) + a.metadata + t.metadata)
  }

  datatype Verdict = Append(final: Attribute) | Drop | Throw | Hop(next: Attribute)

  /** What one call does with an attribute. */
  function Judge(env: Environment, a: Attribute): Verdict {
    var typed := Typed(a);
    if Empty(typed) then Drop
    else match MappingOf(env, a.name)
      case None => Append(typed)
      case Some(NotJson) => Drop
      case Some(NotAttribute) => Throw
      case Some(Target(name, kind, metadata)) => Hop(Mapped(typed, Target(name, kind, metadata)))
  }

  /** The recursion makes at most n further calls. */
  predicate Ends(env: Environment, a: Attribute, n: nat)
    decreases n
  {
    var v := Judge(env, a);
    v.Hop? ==> n > 0 && Ends(env, v.next, n - 1)
  }

  /** How the recursion ends. */
  function Result(env: Environment, a: Attribute, n: nat): (v: Verdict)
    requires Ends(env, a, n)
    ensures !v.Hop?
    decreases n
  {
    var v := Judge(env, a);
    if v.Hop? then Result(env, v.next, n - 1) else v
  }

  class ContextElement {
    const env: Environment
    var attributes: seq<Attribute>

    constructor (environment: Environment)
      ensures env == environment && attributes == []
    {
      env := environment;
      attributes := [];
    }

    /** The device's mapping; the service is searched only when it gives none, up to the first entry with the
        name. */
    method FindMapping(name: string) returns (m: Option<Mapping>)
      ensures m == MappingOf(env, name)
      ensures name in env.device ==> m == Some(env.device[name])
      ensures name !in env.device ==> FirstWithId(env.service, name, m)
    {
      m := if name in env.device then Some(env.device[name]) else None;
      if m.None? {
        var i := 0;
        while m.None? && i < |env.service|
          invariant i <= |env.service|
          invariant m.None? ==> FirstEntry(env.service, name) == FirstEntry(env.service[i..], name)
          invariant m.Some? ==> m == FirstEntry(env.service, name)
        {
          if env.service[i].id == name {
            m := Some(env.service[i].mapping);
          }
          i := i + 1;
        }
      }
      MappingIsFirst(env, name);
    }

    /** Appends at most one attribute: what the recursion ends with. */
    method AddAttribute(attribute: Attribute, ghost n: nat) returns (thrown: bool)
      requires Ends(env, attribute, n)
      modifies this
      ensures var v := Result(env, attribute, n);
              thrown == v.Throw? && attributes == if v.Append? then old(attributes) + [v.final] else old(attributes)
      decreases n
    {
      thrown := false;
      var a := attribute;
      if a.kind == "" {
        a := a.(kind := "string");
      }
      var empty := if a.kind == "compound" && !a.asObject then a.parts == [] else a.value == "";
      if !empty {
        var mapping := FindMapping(a.name);
        match mapping {
          case None =>
            attributes := attributes + [a];
          case Some(NotJson) =>
          case Some(NotAttribute) =>
            thrown := true;
          case Some(Target(name, kind, metadata)) =>
            var type_ := kind;
            if type_ == "" || a.kind == "compound" {
              type_ := a.kind;
            }
            var mapped := Attribute(if name == "" then " " else name, type_, " ", [], false, []);
            if type_ == "compound" {
              if !a.asObject {
                mapped := mapped.(parts := a.parts);
              } else {
                mapped := mapped.(value := a.value);
              }
            } else if type_ == "coords" {
              mapped := mapped.(value := Commas(a.value), metadata := [LOCATION]);
            } else {
              mapped := mapped.(value := a.value);
            }
            mapped := mapped.(metadata := mapped.metadata + a.metadata + metadata);
            assert mapped == Mapped(Typed(attribute), Target(name, kind, metadata));
            thrown := AddAttribute(mapped, n - 1);
        }
      }
    }
  }

  // ---------- when the recursion ends ----------

  /** The attribute of the call after k mappings, if the recursion gets that far. */
  function At(env: Environment, a: Attribute, k: nat): Option<Attribute>
    decreases k
  {
    if k == 0 then Some(a)
    else
      var v := Judge(env, a);
      if v.Hop? then At(env, v.next, k - 1) else None
  }

  /** The k-th call maps a name and calls again. */
  predicate HopsAt(env: Environment, a: Attribute, k: nat) {
    At(env, a, k).Some? && Judge(env, At(env, a, k).value).Hop?
  }

  ghost predicate Repeats(env: Environment, a: Attribute) {
    exists i: nat, j: nat :: i < j && HopsAt(env, a, i) && HopsAt(env, a, j)
        && At(env, a, i).value.name == At(env, a, j).value.name
  }

  function MappedNames(env: Environment): set<string> {
    env.device.Keys + set e | e in env.service :: e.id
  }

  lemma {:induction false} AtAdd(env: Environment, a: Attribute, i: nat, k: nat)
    requires At(env, a, i).Some?
    ensures At(env, a, i + k) == At(env, At(env, a, i).value, k)
    decreases i
  {
    if i > 0 {
      AtAdd(env, Judge(env, a).next, i - 1, k);
    }
  }

  lemma {:induction false} EndsIsShort(env: Environment, a: Attribute, n: nat)
    ensures Ends(env, a, n) <==> !HopsAt(env, a, n)
    decreases n
  {
    var v := Judge(env, a);
    if v.Hop? && n > 0 {
      EndsIsShort(env, v.next, n - 1);
    }
  }

  lemma {:induction false} HopsBefore(env: Environment, a: Attribute, i: nat, j: nat)
    requires i <= j && HopsAt(env, a, j)
    ensures HopsAt(env, a, i)
    decreases i
  {
    if i > 0 {
      HopsBefore(env, Judge(env, a).next, i - 1, j - 1);
    }
  }

  /** What decides, with the name, which way a call goes. */
  predicate Alike(a: Attribute, b: Attribute) {
    && a.name == b.name && (a.kind == "compound" <==> b.kind == "compound") && a.asObject == b.asObject
    && (a.parts == [] <==> b.parts == []) && (a.value == "" <==> b.value == "")
  }

  lemma AlikeStep(env: Environment, a: Attribute, b: Attribute)
    requires Alike(a, b)
    ensures Judge(env, a).Hop? <==> Judge(env, b).Hop?
    ensures Judge(env, a).Hop? ==> Alike(Judge(env, a).next, Judge(env, b).next)
  {
  }

  lemma {:induction false} AlikeRun(env: Environment, a: Attribute, b: Attribute, k: nat)
    requires Alike(a, b)
    ensures HopsAt(env, a, k) <==> HopsAt(env, b, k)
    decreases k
  {
    AlikeStep(env, a, b);
    if k > 0 && Judge(env, a).Hop? {
      AlikeRun(env, Judge(env, a).next, Judge(env, b).next, k - 1);
    }
  }

  lemma {:induction false} CompoundStays(env: Environment, a: Attribute, k: nat)
    requires a.kind == "compound" && HopsAt(env, a, k)
    ensures At(env, a, k).value.kind == "compound"
    ensures k > 0 ==> !a.asObject
    decreases k
  {
    if k > 0 {
      HopsBefore(env, a, 1, k);
      CompoundStays(env, Judge(env, a).next, k - 1);
    }
  }

  /** An attribute mapped as plain cannot turn compound later and go on: it would be empty. */
  lemma {:induction false} PlainStays(env: Environment, a: Attribute, k: nat)
    requires a.kind != "compound" && a.parts == [] && HopsAt(env, a, k)
    ensures At(env, a, k).value.kind != "compound"
    decreases k
  {
    if k > 0 {
      HopsBefore(env, a, 1, k);
      PlainStays(env, Judge(env, a).next, k - 1);
    }
  }

  /** Two calls for one name are followed by alike ones. */
  lemma AlikeAfterRepeat(env: Environment, a: Attribute, m: nat)
    requires m > 0 && HopsAt(env, a, 0) && HopsAt(env, a, m) && At(env, a, m).value.name == a.name
    ensures Alike(Judge(env, a).next, Judge(env, At(env, a, m).value).next)
  {
    var c, z := Judge(env, a).next, At(env, a, m).value;
    HopsBefore(env, a, 1, m);
    assert HopsAt(env, c, m - 1) && At(env, c, m - 1) == Some(z);
    if c.kind == "compound" {
      CompoundStays(env, c, m - 1);
    } else {
      PlainStays(env, c, m - 1);
    }
    NotObject(env, a, m);
  }

  /** After a mapping the flag of an object is gone. */
  lemma {:induction false} NotObject(env: Environment, a: Attribute, m: nat)
    requires m > 0 && HopsAt(env, a, m)
    ensures !At(env, a, m).value.asObject
    ensures At(env, a, m).value.kind != "compound" ==> At(env, a, m).value.parts == []
    decreases m
  {
    if m > 1 {
      NotObject(env, Judge(env, a).next, m - 1);
    }
  }

  lemma {:induction false} RoundAndRound(env: Environment, a: Attribute, m: nat, n: nat)
    requires m > 0 && HopsAt(env, a, 0) && HopsAt(env, a, m) && At(env, a, m).value.name == a.name
    ensures HopsAt(env, a, n)
    decreases n
  {
    if n <= m {
      HopsBefore(env, a, n, m);
    } else {
      var c, d := Judge(env, a).next, Judge(env, At(env, a, m).value).next;
      AlikeAfterRepeat(env, a, m);
      RoundAndRound(env, a, m, n - m);
      AlikeRun(env, c, d, n - m - 1);
      AtAdd(env, a, m, n - m);
    }
  }

  lemma RepeatHops(env: Environment, a: Attribute, i: nat, m: nat, n: nat)
    requires m > 0 && HopsAt(env, a, i) && HopsAt(env, a, i + m)
    requires At(env, a, i).value.name == At(env, a, i + m).value.name
    ensures HopsAt(env, a, n)
  {
    if n <= i {
      HopsBefore(env, a, n, i);
    } else {
      var b := At(env, a, i).value;
      assert HopsAt(env, b, 0);
      assert HopsAt(env, b, m) && At(env, b, m) == At(env, a, i + m) by { AtAdd(env, a, i, m); }
      RoundAndRound(env, b, m, n - i);
      AtAdd(env, a, i, n - i);
    }
  }

  lemma RepeatNeverEnds(env: Environment, a: Attribute, n: nat)
    requires Repeats(env, a)
    ensures !Ends(env, a, n)
  {
    var i: nat, j: nat :| i < j && HopsAt(env, a, i) && HopsAt(env, a, j)
        && At(env, a, i).value.name == At(env, a, j).value.name;
    RepeatHops(env, a, i, j - i, n);
    EndsIsShort(env, a, n);
  }

  lemma {:induction false} DistinctFit(names: seq<string>, all: set<string>)
    requires forall i :: 0 <= i < |names| ==> names[i] in all
    requires forall i, j :: 0 <= i < j < |names| ==> names[i] != names[j]
    ensures |names| <= |all|
  {
    if names != [] {
      var last := names[|names| - 1];
      DistinctFit(names[..|names| - 1], all - {last});
    }
  }

  lemma HoppingNameIsMapped(env: Environment, a: Attribute, k: nat)
    requires HopsAt(env, a, k)
    ensures At(env, a, k).value.name in MappedNames(env)
  {
    EntryNamed(env.service, At(env, a, k).value.name);
  }

  lemma {:induction false} EntryNamed(entries: seq<Entry>, name: string)
    ensures FirstEntry(entries, name).Some? ==> exists e :: e in entries && e.id == name
  {
    if entries != [] {
      EntryNamed(entries[1..], name);
      assert entries[0] in entries;
    }
  }

  lemma EndsSoon(env: Environment, a: Attribute)
    requires !Repeats(env, a)
    ensures Ends(env, a, |MappedNames(env)|)
  {
    var bound := |MappedNames(env)|;
    if !Ends(env, a, bound) {
      EndsIsShort(env, a, bound);
      forall k | 0 <= k <= bound ensures HopsAt(env, a, k) && At(env, a, k).value.name in MappedNames(env) {
        HopsBefore(env, a, k, bound);
        HoppingNameIsMapped(env, a, k);
      }
      var names := seq(bound + 1, (k: nat) requires k <= bound && At(env, a, k).Some? => At(env, a, k).value.name);
      DistinctFit(names, MappedNames(env));
      assert false;
    }
  }

  ghost predicate Terminates(env: Environment, a: Attribute) {
    exists n: nat :: Within(env, a, n)
  }

  predicate Within(env: Environment, a: Attribute, n: nat) {
    Ends(env, a, n)
  }

  /** The recursion ends if and only if no two of its mapped names are the same; and when it does, it
      does within as many further calls as there are mapped names. */
  lemma TerminatesUnlessRepeats(env: Environment, a: Attribute)
    ensures Terminates(env, a) <==> !Repeats(env, a)
    ensures Terminates(env, a) <==> Within(env, a, |MappedNames(env)|)
  {
    if Repeats(env, a) {
      forall n: nat ensures !Within(env, a, n) {
        RepeatNeverEnds(env, a, n);
      }
    } else {
      EndsSoon(env, a);
      assert Within(env, a, |MappedNames(env)|);
    }
  }

  /** A name mapped to itself, with a type that is not compound, keeps the recursion going for ever. */
  lemma SelfMappingNeverEnds(env: Environment, a: Attribute)
    requires MappingOf(env, a.name).Some? && MappingOf(env, a.name).value.Target?
    requires var t := MappingOf(env, a.name).value; Landed(t) == a.name && t.kind != "compound"
    requires a.kind != "compound" && a.value != ""
    ensures !Terminates(env, a)
  {
    var b := Judge(env, a).next;
    assert b == Mapped(Typed(a), MappingOf(env, a.name).value) && b.name == a.name && b.value != ""
        && b.kind != "compound";
    assert HopsAt(env, a, 0) && At(env, a, 1) == At(env, b, 0) && HopsAt(env, a, 1);
    TerminatesUnlessRepeats(env, a);
  }

  // ---------- what is appended ----------

  /** The mappings met from a name on, in order. */
  predicate Linked(env: Environment, name: string, ts: seq<Mapping>)
    decreases |ts|
  {
    ts == [] || (MappingOf(env, name) == Some(ts[0]) && ts[0].Target? && Linked(env, Landed(ts[0]), ts[1..]))
  }

  function EndName(name: string, ts: seq<Mapping>): string
    requires forall t :: t in ts ==> t.Target?
  {
    if ts == [] then name else Landed(ts[|ts| - 1])
  }

  /** The last type that a mapping gives, if one does; a compound stays one. */
  function EndKind(kind: string, ts: seq<Mapping>): string
    requires forall t :: t in ts ==> t.Target?
  {
    if ts == [] || kind == "compound" then kind
    else if ts[|ts| - 1].kind != "" then ts[|ts| - 1].kind
    else EndKind(kind, ts[..|ts| - 1])
  }

  /** The mappings after which the attribute is one of coordinates. */
  function CoordsHops(kind: string, ts: seq<Mapping>): nat
    requires forall t :: t in ts ==> t.Target?
  {
    if ts == [] then 0
    else CoordsHops(kind, ts[..|ts| - 1]) + if EndKind(kind, ts) == "coords" then 1 else 0
  }

  function Copies(item: Item, n: nat): seq<Item> {
    seq(n, _ => item)
  }

  function MetadataOf(ts: seq<Mapping>): seq<Item>
    requires forall t :: t in ts ==> t.Target?
  {
    if ts == [] then [] else ts[0].metadata + MetadataOf(ts[1..])
  }

  /** Only a compound has members, as the constructors of Attribute see to. */
  predicate Formed(a: Attribute) {
    a.kind != "compound" ==> a.parts == [] && !a.asObject
  }

  /** A compound held as an object is lost by a mapping, any other attribute by a mapping to a compound. */
  predicate Lost(a: Attribute, ts: seq<Mapping>)
    requires forall t :: t in ts ==> t.Target?
  {
    if a.kind == "compound" then a.asObject && ts != [] else exists i :: 0 <= i < |ts| && ts[i].kind == "compound"
  }

  /** The attribute at the end of the mappings: one location for every mapping to coordinates, then its own
      metadata, then that of each mapping. */
  function Final(a: Attribute, ts: seq<Mapping>): Attribute
    requires forall t :: t in ts ==> t.Target?
  {
    if ts == [] then a
    else Attribute(
      EndName(a.name, ts), EndKind(a.kind, ts),
      if a.kind == "compound" then " " else if CoordsHops(a.kind, ts) > 0 then Commas(a.value) else a.value,
      a.parts, false,
      Copies(LOCATION, CoordsHops(a.kind, ts)) + a.metadata + MetadataOf(ts))
  }

  /** What is to be expected when the mappings from the name of an attribute lead to one that leads nowhere. */
  function Expected(env: Environment, a: Attribute, ts: seq<Mapping>): Verdict
    requires forall t :: t in ts ==> t.Target?
  {
    var typed := Typed(a);
    if Empty(typed) || Lost(typed, ts) then Drop
    else match MappingOf(env, EndName(a.name, ts))
      case None => Append(Final(typed, ts))
      case Some(NotAttribute) => Throw
      case Some(_) => Drop
  }

  lemma {:induction false} LinkedTargets(env: Environment, name: string, ts: seq<Mapping>)
    requires Linked(env, name, ts)
    ensures forall t :: t in ts ==> t.Target?
    decreases |ts|
  {
    if ts != [] {
      LinkedTargets(env, Landed(ts[0]), ts[1..]);
      assert ts == [ts[0]] + ts[1..];
    }
  }

  lemma {:induction false} EndKindStep(kind: string, ts: seq<Mapping>)
    requires ts != [] && forall t :: t in ts ==> t.Target?
    requires kind != "compound" ==> forall t :: t in ts ==> t.kind != "compound"
    ensures EndKind(kind, ts) == EndKind(KindAfter(kind, ts[0]), ts[1..])
  {
    if |ts| > 1 {
      var n := |ts| - 1;
      EndKindStep(kind, ts[..n]);
      assert ts[..n][1..] == ts[1..][..n - 1] && ts[1..][n - 1] == ts[n];
    }
  }

  lemma {:induction false} CoordsHopsStep(kind: string, ts: seq<Mapping>)
    requires ts != [] && forall t :: t in ts ==> t.Target?
    requires kind != "compound" ==> forall t :: t in ts ==> t.kind != "compound"
    ensures CoordsHops(kind, ts)
            == CoordsHops(KindAfter(kind, ts[0]), ts[1..]) + if KindAfter(kind, ts[0]) == "coords" then 1 else 0
  {
    EndKindStep(kind, ts);
    var n := |ts| - 1;
    if n > 0 {
      CoordsHopsStep(kind, ts[..n]);
      assert ts[..n][1..] == ts[1..][..n - 1];
    } else {
      assert ts[..0] == [];
    }
  }

  lemma CommasTwice(s: string)
    ensures Commas(Commas(s)) == Commas(s)
  {
  }

  lemma {:induction false} NeverCoords(ts: seq<Mapping>)
    requires forall t :: t in ts ==> t.Target?
    ensures CoordsHops("compound", ts) == 0
  {
    if ts != [] {
      NeverCoords(ts[..|ts| - 1]);
    }
  }

  /** One mapping more at the front. */
  lemma FinalStep(a: Attribute, ts: seq<Mapping>)
    requires ts != [] && forall t :: t in ts ==> t.Target?
    requires Formed(a) && !Lost(a, ts)
    ensures Final(Mapped(a, ts[0]), ts[1..]) == Final(a, ts)
  {
    var b := Mapped(a, ts[0]);
    assert a.kind != "compound" ==> forall t :: t in ts ==> t.kind != "compound";
    EndKindStep(a.kind, ts);
    CoordsHopsStep(a.kind, ts);
    CommasTwice(a.value);
    assert a.kind != "compound" ==> b.kind != "compound" by { assert ts[0] in ts; }
    if a.kind == "compound" {
      NeverCoords(ts);
    }
    var k := CoordsHops(b.kind, ts[1..]);
    assert Copies(LOCATION, k) + [LOCATION] == Copies(LOCATION, k + 1);
    assert EndName(b.name, ts[1..]) == EndName(a.name, ts);
    var location := if b.kind == "coords" then [LOCATION] else [];
    Regroup(Copies(LOCATION, k), location, a.metadata, ts[0].metadata, MetadataOf(ts[1..]));
    assert Copies(LOCATION, k) + [] == Copies(LOCATION, k);
    if ts[1..] == [] {
      assert b.metadata == Copies(LOCATION, k) + b.metadata + MetadataOf(ts[1..]);
    }
  }

  lemma Regroup(a: seq<Item>, b: seq<Item>, c: seq<Item>, d: seq<Item>, e: seq<Item>)
    ensures a + (b + c + d) + e == (a + b) + c + (d + e)
  {
  }

  /** A mapping that loses the attribute loses it at once or later on. */
  lemma {:induction false} LostIsDropped(env: Environment, a: Attribute, ts: seq<Mapping>)
    requires Linked(env, a.name, ts) && (forall t :: t in ts ==> t.Target?) && Formed(a)
    requires a.kind != "" && !Empty(a) && Lost(a, ts)
    ensures Ends(env, a, |ts|) && Result(env, a, |ts|) == Drop
    decreases |ts|
  {
    var b := Mapped(a, ts[0]);
    assert Judge(env, a) == Hop(b);
    if !Empty(b) {
      assert b.kind != "compound" && a.kind != "compound";
      var i :| 0 <= i < |ts| && ts[i].kind == "compound";
      assert ts[1..][i - 1] == ts[i];
      LostIsDropped(env, b, ts[1..]);
    }
  }

  lemma {:induction false} KeptIsFinal(env: Environment, a: Attribute, ts: seq<Mapping>)
    requires Linked(env, a.name, ts) && (forall t :: t in ts ==> t.Target?) && Formed(a)
    requires a.kind != "" && !Empty(a) && !Lost(a, ts)
    requires var stop := MappingOf(env, EndName(a.name, ts)); stop.Some? ==> !stop.value.Target?
    ensures Ends(env, a, |ts|) && Result(env, a, |ts|) == Expected(env, a, ts)
    decreases |ts|
  {
    if ts != [] {
      var b := Mapped(a, ts[0]);
      assert Judge(env, a) == Hop(b);
      FinalStep(a, ts);
      assert forall i :: 0 <= i < |ts[1..]| ==> ts[1..][i] == ts[i + 1];
      assert a.kind != "compound" ==> b.kind != "compound" by {
        assert a.kind != "compound" ==> ts[0].kind != "compound";
      }
      KeptIsFinal(env, b, ts[1..]);
      assert EndName(b.name, ts[1..]) == EndName(a.name, ts);
    }
  }

  /** When the mappings from an attribute's name lead to a name that is not mapped on, the recursion ends
      after them, and as expected. */
  lemma FollowsMappings(env: Environment, a: Attribute, ts: seq<Mapping>)
    requires Linked(env, a.name, ts) && (forall t :: t in ts ==> t.Target?) && Formed(a)
    requires var stop := MappingOf(env, EndName(a.name, ts)); stop.Some? ==> !stop.value.Target?
    ensures Ends(env, a, |ts|) && Result(env, a, |ts|) == Expected(env, a, ts)
  {
    var typed := Typed(a);
    if !Empty(typed) {
      if Lost(typed, ts) {
        LostIsDropped(env, typed, ts);
      } else {
        KeptIsFinal(env, typed, ts);
      }
      SameFromTyped(env, a, |ts|);
    }
  }

  lemma SameFromTyped(env: Environment, a: Attribute, n: nat)
    ensures Ends(env, a, n) <==> Ends(env, Typed(a), n)
    ensures Ends(env, a, n) ==> Result(env, a, n) == Result(env, Typed(a), n)
  {
    assert Judge(env, a) == Judge(env, Typed(a));
  }

  /** More calls than are needed change nothing. */
  lemma {:induction false} ResultStable(env: Environment, a: Attribute, m: nat, n: nat)
    requires Ends(env, a, m) && Ends(env, a, n)
    ensures Result(env, a, m) == Result(env, a, n)
    decreases n
  {
    if Judge(env, a).Hop? {
      ResultStable(env, Judge(env, a).next, m - 1, n - 1);
    }
  }

  /** Whatever is appended is at the end of mappings from the attribute's name to a name without one. */
  lemma {:induction false} AppendedAtEnd(env: Environment, a: Attribute, n: nat) returns (ts: seq<Mapping>)
    requires Ends(env, a, n) && Result(env, a, n).Append?
    ensures Linked(env, a.name, ts) && (forall t :: t in ts ==> t.Target?)
            && MappingOf(env, EndName(a.name, ts)) == None
    decreases n
  {
    var v := Judge(env, a);
    ts := [];
    if v.Hop? {
      var rest := AppendedAtEnd(env, v.next, n - 1);
      ts := [MappingOf(env, a.name).value] + rest;
      assert ts[1..] == rest;
      assert EndName(a.name, ts) == EndName(v.next.name, rest);
    }
  }

  /** An attribute is appended if and only if it is not empty and the mappings from its name lead, without
      losing it, to a name that has none; and what is appended is the end of those mappings. */
  lemma AppendsExactly(env: Environment, a: Attribute, n: nat)
    requires Ends(env, a, n) && Formed(a)
    ensures Result(env, a, n).Append? <==>
            !Empty(Typed(a)) && exists ts :: LeadsToEnd(env, a.name, ts) && !Lost(Typed(a), ts)
    ensures forall ts :: LeadsToEnd(env, a.name, ts) && Result(env, a, n).Append? ==>
            Result(env, a, n).final == Final(Typed(a), ts)
  {
    forall ts | LeadsToEnd(env, a.name, ts) ensures Result(env, a, n) == Expected(env, a, ts) {
      FollowsMappings(env, a, ts);
      ResultStable(env, a, |ts|, n);
    }
    if Result(env, a, n).Append? {
      var ts := AppendedAtEnd(env, a, n);
      assert LeadsToEnd(env, a.name, ts);
    }
  }

  predicate LeadsToEnd(env: Environment, name: string, ts: seq<Mapping>) {
    Linked(env, name, ts) && (forall t :: t in ts ==> t.Target?) && MappingOf(env, EndName(name, ts)) == None
  }

  // ---------- when the recursion ends, seen from the mappings ----------

  /** The mappings from the attribute's name go on for one more than there are mapped names, without losing it. */
  ghost predicate GoesRound(env: Environment, a: Attribute) {
    !Empty(Typed(a)) && exists ts :: |ts| == |MappedNames(env)| + 1 && LeadsOn(env, a.name, ts) && !Lost(Typed(a), ts)
  }

  predicate LeadsOn(env: Environment, name: string, ts: seq<Mapping>)
    ensures LeadsOn(env, name, ts) ==> forall t :: t in ts ==> t.Target?
  {
    Linked(env, name, ts) && forall t :: t in ts ==> t.Target?
  }

  lemma {:induction false} MappingsHopped(env: Environment, a: Attribute, k: nat) returns (ts: seq<Mapping>)
    requires HopsAt(env, a, k)
    ensures |ts| == k + 1 && LeadsOn(env, a.name, ts)
    decreases k
  {
    var next := Judge(env, a).next;
    var first := MappingOf(env, a.name).value;
    HopsBefore(env, a, 0, k);
    if k == 0 {
      ts := [first];
    } else {
      var rest := MappingsHopped(env, next, k - 1);
      ts := [first] + rest;
      assert ts[1..] == rest;
    }
  }

  lemma {:induction false} KeptHops(env: Environment, a: Attribute, ts: seq<Mapping>)
    requires LeadsOn(env, a.name, ts) && ts != [] && Formed(a)
    requires a.kind != "" && !Empty(a) && !Lost(a, ts)
    ensures HopsAt(env, a, |ts| - 1)
    decreases |ts|
  {
    var b := Mapped(a, ts[0]);
    assert Judge(env, a) == Hop(b);
    if |ts| > 1 {
      assert forall i :: 0 <= i < |ts[1..]| ==> ts[1..][i] == ts[i + 1];
      assert a.kind != "compound" ==> b.kind != "compound" by {
        assert a.kind != "compound" ==> ts[0].kind != "compound";
      }
      KeptHops(env, b, ts[1..]);
    }
  }

  lemma HopsFromTyped(env: Environment, a: Attribute, k: nat)
    ensures HopsAt(env, a, k) <==> HopsAt(env, Typed(a), k)
  {
    assert Judge(env, a) == Judge(env, Typed(a));
  }

  lemma RoundHops(env: Environment, a: Attribute)
    requires Formed(a) && GoesRound(env, a)
    ensures HopsAt(env, a, |MappedNames(env)|)
  {
    var ts :| |ts| == |MappedNames(env)| + 1 && LeadsOn(env, a.name, ts) && !Lost(Typed(a), ts);
    KeptHops(env, Typed(a), ts);
    HopsFromTyped(env, a, |MappedNames(env)|);
  }

  lemma LostTerminates(env: Environment, a: Attribute, ts: seq<Mapping>)
    requires Formed(a) && !Empty(Typed(a)) && LeadsOn(env, a.name, ts) && Lost(Typed(a), ts)
    ensures Terminates(env, a)
  {
    LostIsDropped(env, Typed(a), ts);
    SameFromTyped(env, a, |ts|);
    assert Within(env, a, |ts|);
  }

  lemma HopsRound(env: Environment, a: Attribute)
    requires Formed(a) && HopsAt(env, a, |MappedNames(env)|) && !Terminates(env, a)
    ensures GoesRound(env, a)
  {
    var ts := MappingsHopped(env, a, |MappedNames(env)|);
    HopsBefore(env, a, 0, |MappedNames(env)|);
    assert !Empty(Typed(a));
    assert !Lost(Typed(a), ts) by {
      if Lost(Typed(a), ts) {
        LostTerminates(env, a, ts);
      }
    }
  }

  /** The test a caller can make: the recursion goes on for ever if and only if the attribute is not empty and the
      mappings from its name, which the device and the service hold, go on for one more than there are mapped
      names, without losing it. */
  lemma TerminatesUnlessRound(env: Environment, a: Attribute)
    requires Formed(a)
    ensures Terminates(env, a) <==> !GoesRound(env, a)
  {
    TerminatesUnlessRepeats(env, a);
    EndsIsShort(env, a, |MappedNames(env)|);
    if GoesRound(env, a) {
      RoundHops(env, a);
    }
    if !Terminates(env, a) {
      HopsRound(env, a);
    }
  }

  // ---------- what decides ----------

  /** The entries of a service for other names. */
  function Others(entries: seq<Entry>, name: string): seq<Entry> {
    if entries == [] then []
    else (if entries[0].id == name then [] else [entries[0]]) + Others(entries[1..], name)
  }

  lemma {:induction false} FirstOfOthers(entries: seq<Entry>, name: string, other: string)
    requires name != other
    ensures FirstEntry(entries, other) == FirstEntry(Others(entries, name), other)
  {
    if entries != [] {
      FirstOfOthers(entries[1..], name, other);
      var rest := Others(entries[1..], name);
      assert [] + rest == rest && ([entries[0]] + rest)[1..] == rest;
    }
  }

  lemma SameMappings(env: Environment, service: seq<Entry>, name: string, other: string)
    requires name in env.device && Others(service, name) == Others(env.service, name)
    ensures MappingOf(env.(service := service), other) == MappingOf(env, other)
  {
    if other != name {
      FirstOfOthers(service, name, other);
      FirstOfOthers(env.service, name, other);
    }
  }

  /** When the device maps a name, the service's entries for it make no difference: with any others in their place
      the recursion ends after as many calls, and in the same way. */
  lemma {:induction false} DeviceDecides(env: Environment, service: seq<Entry>, name: string, a: Attribute, n: nat)
    requires name in env.device && Others(service, name) == Others(env.service, name)
    ensures Ends(env.(service := service), a, n) <==> Ends(env, a, n)
    ensures Ends(env, a, n) ==> Result(env.(service := service), a, n) == Result(env, a, n)
    decreases n
  {
    SameMappings(env, service, name, a.name);
    assert Judge(env.(service := service), a) == Judge(env, a);
    var v := Judge(env, a);
    if v.Hop? && n > 0 {
      DeviceDecides(env, service, name, v.next, n - 1);
    }
  }

  /** An attribute that the device maps once, to a name that nothing maps: it is appended under that name, or " "
      when the mapping has none, with the mapping's type, or its own, or "string" when neither has one; '/' becomes
      ',' in coordinates, which get the location WGS84 first; its own metadata come before the mapping's. */
  lemma MappedOnce(env: Environment, a: Attribute, t: Mapping, n: nat)
    requires Ends(env, a, n) && a.name in env.device && env.device[a.name] == t && t.Target?
    requires a.kind != "compound" && t.kind != "compound" && a.value != ""
    requires var name := if t.name == "" then " " else t.name;
             name !in env.device && forall k :: 0 <= k < |env.service| ==> env.service[k].id != name
    ensures Result(env, a, n).Append?
    ensures var final := Result(env, a, n).final;
            var coords := t.kind == "coords" || (t.kind == "" && a.kind == "coords");
            && final.name == (if t.name == "" then " " else t.name)
            && final.kind == (if t.kind != "" then t.kind else if a.kind != "" then a.kind else "string")
            && |final.value| == |a.value|
            && (forall i :: 0 <= i < |a.value| ==>
                final.value[i] == if coords && a.value[i] == '/' then ',' else a.value[i])
            && final.parts == [] && !final.asObject
            && final.metadata
               == (if coords then [Item("location", "string", "WGS84")] else []) + a.metadata + t.metadata
  {
    var name := if t.name == "" then " " else t.name;
    MappingIsFirst(env, name);
    var b := Judge(env, a).next;
    assert b.name == name && MappingOf(env, name) == None;
    assert Judge(env, b) == Append(b);
  }

  /** A compound that the device maps once keeps its members and its type; one held as an object is lost, and so is
      any other attribute that is mapped to a compound. */
  lemma CompoundMappedOnce(env: Environment, a: Attribute, t: Mapping, n: nat)
    requires Ends(env, a, n) && a.name in env.device && env.device[a.name] == t && t.Target?
    requires var name := if t.name == "" then " " else t.name;
             name !in env.device && forall k :: 0 <= k < |env.service| ==> env.service[k].id != name
    ensures a.kind == "compound" && !a.asObject && a.parts != [] ==>
              && Result(env, a, n).Append? && Result(env, a, n).final.kind == "compound"
              && Result(env, a, n).final.parts == a.parts && Result(env, a, n).final.value == " "
              && Result(env, a, n).final.metadata == a.metadata + t.metadata
    ensures a.kind == "compound" && a.asObject ==> Result(env, a, n) == Drop
    ensures a.kind != "compound" && a.parts == [] && t.kind == "compound" ==> Result(env, a, n) == Drop
  {
    var name := if t.name == "" then " " else t.name;
    MappingIsFirst(env, name);
    var v := Judge(env, a);
    if v.Hop? {
      assert v.next.name == name && MappingOf(env, name) == None;
      assert Judge(env, v.next) == Append(Typed(v.next)) || Judge(env, v.next) == Drop;
    }
  }

  /** An attribute that nothing maps is appended as it is, with the type "string" when it has none; and none is
      that has no value, or is a compound without members. */
  lemma Unmapped(env: Environment, a: Attribute, n: nat)
    requires a.name !in env.device && forall k :: 0 <= k < |env.service| ==> env.service[k].id != a.name
    ensures Ends(env, a, n)
    ensures Result(env, a, n) ==
            if (if a.kind == "compound" && !a.asObject then a.parts == [] else a.value == "") then Drop
            else Append(if a.kind == "" then a.(kind := "string") else a)
  {
    MappingIsFirst(env, a.name);
  }

  /** A mapping that is not JSON drops the attribute, and JSON that is no attribute throws. */
  lemma BadMapping(env: Environment, a: Attribute, n: nat)
    requires a.name in env.device && a.value != "" && a.kind != "compound"
    ensures env.device[a.name] == NotJson ==> Ends(env, a, n) && Result(env, a, n) == Drop
    ensures env.device[a.name] == NotAttribute ==> Ends(env, a, n) && Result(env, a, n) == Throw
  {
    assert MappingOf(env, a.name) == Some(env.device[a.name]);
  }
}
