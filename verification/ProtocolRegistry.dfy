/**
  Registrations of agents with the manager: the endpoints of each protocol (the first half of
  post_protocol_json in src/services/admin_mgmt_service.cc).  A positional update changes the first
  entry that matches, and fails when none does.
 */
module ProtocolRegistry {

  datatype Endpoint = Endpoint(identifier: string, endpoint: string, resource: string)

  datatype Protocol = Protocol(description: string, endpoints: seq<Endpoint>)

  // ---------- positional updates ----------

  /** The first entry with an identifier, or the length of the list. */
  function FirstById(es: seq<Endpoint>, id: string): (k: nat)
    ensures k <= |es|
    ensures forall i :: 0 <= i < k ==> es[i].identifier != id
    ensures k < |es| ==> es[k].identifier == id
  {
    if es == [] || es[0].identifier == id then 0 else 1 + FirstById(es[1..], id)
  }

  function FirstByEndpoint(es: seq<Endpoint>, endpoint: string): (k: nat)
    ensures k <= |es|
    ensures forall i :: 0 <= i < k ==> es[i].endpoint != endpoint
    ensures k < |es| ==> es[k].endpoint == endpoint
  {
    if es == [] || es[0].endpoint == endpoint then 0 else 1 + FirstByEndpoint(es[1..], endpoint)
  }

  /** The three updates in order: a known identifier gets the endpoint and resource; failing that, a
      known endpoint gets the identifier and resource; failing that, an entry is added. */
  function Registered(p: Protocol, description: string, id: string, endpoint: string, resource: string): Protocol {
    var es, entry := p.endpoints, Endpoint(id, endpoint, resource);
    var k, m := FirstById(es, id), FirstByEndpoint(es, endpoint);
    if k < |es| then p.(endpoints := es[k := entry])
    else if m < |es| then p.(endpoints := es[m := entry])
    else Protocol(description, if entry in es then es else es + [entry])
  }

  /** An empty identifier stands for the endpoint itself. */
  function IdOf(identifier: string, endpoint: string): string {
    if identifier == "" then endpoint else identifier
  }

  lemma RegisteredIn(p: Protocol, description: string, id: string, endpoint: string, resource: string)
    ensures Endpoint(id, endpoint, resource) in Registered(p, description, id, endpoint, resource).endpoints
  {
    var es, after := p.endpoints, Registered(p, description, id, endpoint, resource).endpoints;
    var k, m := FirstById(es, id), FirstByEndpoint(es, endpoint);
    if k < |es| {
      assert after[k] == Endpoint(id, endpoint, resource);
    } else if m < |es| {
      assert after[m] == Endpoint(id, endpoint, resource);
    }
  }

  class ProtocolTable {
    var protocols: map<string, Protocol>

    constructor ()
      ensures protocols == map[]
    {
      protocols := map[];
    }

    method UpdateById(name: string, id: string, endpoint: string, resource: string) returns (updated: nat)
      modifies this
      ensures updated == if name !in old(protocols) then 0
                         else
                           var es := old(protocols)[name].endpoints;
                           if FirstById(es, id) < |es| then 1 else 0
      ensures protocols == if updated == 0 then old(protocols)
                           else
                             var p := old(protocols)[name];
                             var at := FirstById(p.endpoints, id);
                             var entry := Endpoint(id, endpoint, resource);
                             old(protocols)[name := p.(endpoints := p.endpoints[at := entry])]
    {
      updated := 0;
      if name in protocols {
        var es := protocols[name].endpoints;
        var k := FirstById(es, id);
        if k < |es| {
          var entry := es[k].(endpoint := endpoint, resource := resource);
          protocols := protocols[name := protocols[name].(endpoints := es[k := entry])];
          updated := 1;
        }
      }
    }

    method UpdateByEndpoint(name: string, id: string, endpoint: string, resource: string) returns (updated: nat)
      modifies this
      ensures updated == if name !in old(protocols) then 0
                         else
                           var es := old(protocols)[name].endpoints;
                           if FirstByEndpoint(es, endpoint) < |es| then 1 else 0
      ensures protocols == if updated == 0 then old(protocols)
                           else
                             var p := old(protocols)[name];
                             var at := FirstByEndpoint(p.endpoints, endpoint);
                             var entry := Endpoint(id, endpoint, resource);
                             old(protocols)[name := p.(endpoints := p.endpoints[at := entry])]
    {
      updated := 0;
      if name in protocols {
        var es := protocols[name].endpoints;
        var m := FirstByEndpoint(es, endpoint);
        if m < |es| {
          var entry := es[m].(identifier := id, resource := resource);
          protocols := protocols[name := protocols[name].(endpoints := es[m := entry])];
          updated := 1;
        }
      }
    }

    /** The registration of one agent for one protocol; a protocol not seen before is created. */
    method Register(name: string, description: string, identifier: string, endpoint: string, resource: string)
      modifies this
      ensures var before := if name in old(protocols) then old(protocols)[name] else Protocol(description, []);
              var after := Registered(before, description, IdOf(identifier, endpoint), endpoint, resource);
              protocols == old(protocols)[name := after]
      ensures var id := if identifier == "" then endpoint else identifier;
              name in protocols && Endpoint(id, endpoint, resource) in protocols[name].endpoints
      ensures forall other :: other != name ==>
                (other in protocols <==> other in old(protocols))
                && (other in protocols ==> protocols[other] == old(protocols)[other])
    {
      var id := if identifier == "" then endpoint else identifier;
      var updates := UpdateById(name, id, endpoint, resource);
      if updates == 0 {
        updates := UpdateByEndpoint(name, id, endpoint, resource);
      }
      if updates == 0 {
        var es := if name in protocols then protocols[name].endpoints else [];
        var entry := Endpoint(id, endpoint, resource);
        protocols := protocols[name := Protocol(description, if entry in es then es else es + [entry])];
      }
      ghost var before := if name in old(protocols) then old(protocols)[name] else Protocol(description, []);
      RegisteredIn(before, description, id, endpoint, resource);
    }
  }

  // ---------- identifiers ----------

  ghost predicate DistinctIds(es: seq<Endpoint>) {
    forall i, j :: 0 <= i < j < |es| ==> es[i].identifier != es[j].identifier
  }

  ghost predicate DistinctEndpoints(es: seq<Endpoint>) {
    forall i, j :: 0 <= i < j < |es| ==> es[i].endpoint != es[j].endpoint
  }

  /** After a registration exactly one entry has the identifier, and it carries the endpoint and resource
      registered; identifiers stay distinct; and entries with another identifier and another endpoint are
      untouched. */
  lemma RegisteredOnce(p: Protocol, description: string, id: string, endpoint: string, resource: string)
    requires DistinctIds(p.endpoints)
    ensures var es, after := p.endpoints, Registered(p, description, id, endpoint, resource).endpoints;
            && DistinctIds(after)
            && (exists k :: 0 <= k < |after| && after[k] == Endpoint(id, endpoint, resource)
                            && forall i :: 0 <= i < |after| && i != k ==> after[i].identifier != id)
            && |es| <= |after|
            && (forall i :: 0 <= i < |es| && es[i].identifier != id && es[i].endpoint != endpoint ==> after[i] == es[i])
  {
    var es, after := p.endpoints, Registered(p, description, id, endpoint, resource).endpoints;
    var k, m := FirstById(es, id), FirstByEndpoint(es, endpoint);
    var at := if k < |es| then k else if m < |es| then m else |es|;
    assert after[at] == Endpoint(id, endpoint, resource);
    forall i | 0 <= i < |after| && i != at ensures after[i].identifier != id && i < |es| && after[i] == es[i] {
    }
  }

  ghost predicate KnownId(es: seq<Endpoint>, id: string) {
    exists i :: 0 <= i < |es| && es[i].identifier == id
  }

  ghost predicate KnownEndpoint(es: seq<Endpoint>, endpoint: string) {
    exists i :: 0 <= i < |es| && es[i].endpoint == endpoint
  }

  /** All of a registration.  A known identifier: its entry gets the endpoint and resource, every other stays, and so
      does the description.  A known endpoint only: its first entry gets the identifier and resource, and the rest
      stays.  Neither: an entry is added, and the description is the new one. */
  lemma RegisteredExactly(p: Protocol, description: string, id: string, endpoint: string, resource: string)
    requires DistinctIds(p.endpoints)
    ensures var es, after := p.endpoints, Registered(p, description, id, endpoint, resource);
            && (KnownId(es, id) ==>
                && after.description == p.description && |after.endpoints| == |es|
                && forall i :: 0 <= i < |es| ==>
                   after.endpoints[i] == if es[i].identifier == id then Endpoint(id, endpoint, resource) else es[i])
            && (!KnownId(es, id) && KnownEndpoint(es, endpoint) ==>
                && after.description == p.description && |after.endpoints| == |es|
                && forall i :: 0 <= i < |es| ==>
                   after.endpoints[i] == if IsFirstAt(es, i, endpoint) then Endpoint(id, endpoint, resource) else es[i])
            && (!KnownId(es, id) && !KnownEndpoint(es, endpoint) ==>
                after == Protocol(description, es + [Endpoint(id, endpoint, resource)]))
  {
    var es := p.endpoints;
    var k, m := FirstById(es, id), FirstByEndpoint(es, endpoint);
    if k == |es| && m == |es| {
      assert forall i :: 0 <= i < |es| ==> es[i] != Endpoint(id, endpoint, resource);
    }
  }

  ghost predicate IsFirstAt(es: seq<Endpoint>, i: nat, endpoint: string)
    requires i < |es|
  {
    es[i].endpoint == endpoint && forall j :: 0 <= j < i ==> es[j].endpoint != endpoint
  }

  datatype Registration = Registration(
    name: string, description: string, identifier: string, endpoint: string, resource: string)

  function Register(table: map<string, Protocol>, r: Registration): map<string, Protocol> {
    var before := if r.name in table then table[r.name] else Protocol(r.description, []);
    table[r.name := Registered(before, r.description, IdOf(r.identifier, r.endpoint), r.endpoint, r.resource)]
  }

  function RegisterAll(rs: seq<Registration>): map<string, Protocol> {
    if rs == [] then map[] else Register(RegisterAll(rs[..|rs| - 1]), rs[|rs| - 1])
  }

  /** Over every sequence of registrations the identifiers within each protocol stay pairwise distinct. */
  lemma {:induction false} IdsStayDistinct(rs: seq<Registration>, name: string)
    requires name in RegisterAll(rs)
    ensures DistinctIds(RegisterAll(rs)[name].endpoints)
  {
    var before, r := RegisterAll(rs[..|rs| - 1]), rs[|rs| - 1];
    if name in before {
      IdsStayDistinct(rs[..|rs| - 1], name);
    }
    if r.name == name {
      var p := if name in before then before[name] else Protocol(r.description, []);
      RegisteredOnce(p, r.description, IdOf(r.identifier, r.endpoint), r.endpoint, r.resource);
    }
  }

  /** An entry with another identifier has the endpoint. */
  ghost predicate HeldByOther(es: seq<Endpoint>, id: string, endpoint: string) {
    exists i :: 0 <= i < |es| && es[i].identifier != id && es[i].endpoint == endpoint
  }

  /** Endpoints do not: they stay distinct exactly when the registration does not give a known
      identifier an endpoint that an entry with another identifier has. */
  lemma EndpointsStayDistinct(p: Protocol, description: string, id: string, endpoint: string, resource: string)
    requires DistinctIds(p.endpoints) && DistinctEndpoints(p.endpoints)
    ensures var es := p.endpoints;
            DistinctEndpoints(Registered(p, description, id, endpoint, resource).endpoints) <==>
            !(FirstById(es, id) < |es| && HeldByOther(es, id, endpoint))
  {
    var es, after := p.endpoints, Registered(p, description, id, endpoint, resource).endpoints;
    var k := FirstById(es, id);
    if k < |es| {
      if i: nat :| i < |es| && es[i].identifier != id && es[i].endpoint == endpoint {
        assert after[i].endpoint == after[k].endpoint;
      }
    }
  }

  /** The registration gives a known identifier an endpoint that an entry with another identifier has. */
  ghost predicate TakesOver(table: map<string, Protocol>, r: Registration) {
    && r.name in table
    && FirstById(table[r.name].endpoints, IdOf(r.identifier, r.endpoint)) < |table[r.name].endpoints|
    && HeldByOther(table[r.name].endpoints, IdOf(r.identifier, r.endpoint), r.endpoint)
  }

  ghost predicate EndpointsDistinct(table: map<string, Protocol>, name: string) {
    name in table ==> DistinctEndpoints(table[name].endpoints)
  }

  lemma OneMoreRegistered(rs: seq<Registration>, name: string)
    requires rs != [] && EndpointsDistinct(RegisterAll(rs[..|rs| - 1]), name)
    ensures var r := rs[|rs| - 1];
            EndpointsDistinct(RegisterAll(rs), name) <==> !(r.name == name && TakesOver(RegisterAll(rs[..|rs| - 1]), r))
  {
    var before, r := RegisterAll(rs[..|rs| - 1]), rs[|rs| - 1];
    if r.name == name {
      var p := if name in before then before[name] else Protocol(r.description, []);
      if name in before {
        IdsStayDistinct(rs[..|rs| - 1], name);
      }
      EndpointsStayDistinct(p, r.description, IdOf(r.identifier, r.endpoint), r.endpoint, r.resource);
    }
  }

  /** The endpoints of a protocol are distinct after n registrations. */
  ghost predicate DistinctAfter(rs: seq<Registration>, n: nat, name: string)
    requires n <= |rs|
  {
    EndpointsDistinct(RegisterAll(rs[..n]), name)
  }

  /** Registration n is for the protocol, and takes over an endpoint. */
  ghost predicate TakesOverAt(rs: seq<Registration>, n: nat, name: string)
    requires n < |rs|
  {
    rs[n].name == name && TakesOver(RegisterAll(rs[..n]), rs[n])
  }

  lemma DistinctStep(rs: seq<Registration>, n: nat, name: string)
    requires n < |rs| && DistinctAfter(rs, n, name)
    ensures DistinctAfter(rs, n + 1, name) <==> !TakesOverAt(rs, n, name)
  {
    assert rs[..n + 1][..n] == rs[..n];
    OneMoreRegistered(rs[..n + 1], name);
  }

  /** What each step without a fault keeps holds all along exactly when no step has one. */
  lemma {:induction false} KeptAllAlong(n: nat, good: nat -> bool, fault: nat -> bool)
    requires good(0) && forall i :: 0 <= i < n && good(i) ==> (good(i + 1) <==> !fault(i))
    ensures (forall i :: 0 <= i <= n ==> good(i)) <==> forall i :: 0 <= i < n ==> !fault(i)
  {
    if n > 0 {
      KeptAllAlong(n - 1, good, fault);
      if good(n - 1) {
        assert good(n - 1 + 1) <==> !fault(n - 1);
      }
    }
  }

  /** Over every sequence of registrations the endpoints of a protocol are distinct all along if and only if no
      registration of the sequence takes over an endpoint. */
  lemma EndpointsDistinctAllAlong(rs: seq<Registration>, name: string)
    ensures (forall n :: 0 <= n <= |rs| ==> DistinctAfter(rs, n, name)) <==>
            forall n :: 0 <= n < |rs| ==> !TakesOverAt(rs, n, name)
  {
    var good := (i: nat) => i <= |rs| && DistinctAfter(rs, i, name);
    var fault := (i: nat) => i < |rs| && TakesOverAt(rs, i, name);
    assert rs[..0] == [] && good(0);
    forall i | 0 <= i < |rs| && good(i) ensures good(i + 1) <==> !fault(i) {
      DistinctStep(rs, i, name);
    }
    KeptAllAlong(|rs|, good, fault);
    assert forall i :: 0 <= i <= |rs| ==> (good(i) <==> DistinctAfter(rs, i, name));
    assert forall i :: 0 <= i < |rs| ==> (fault(i) <==> TakesOverAt(rs, i, name));
  }

  /** Three registrations after which two identifiers share one endpoint. */
  lemma SharedEndpoint(name: string, d: string, a: string, b: string, e: string, f: string, resource: string)
    requires a != "" && b != "" && a != b && e != f
    ensures var rs := [Registration(name, d, a, e, resource), Registration(name, d, b, f, resource),
            Registration(name, d, a, f, resource)];
            name in RegisterAll(rs)
            && RegisterAll(rs)[name].endpoints == [Endpoint(a, f, resource), Endpoint(b, f, resource)]
  {
    var r1, r2, r3 := Registration(name, d, a, e, resource), Registration(name, d, b, f, resource),
        Registration(name, d, a, f, resource);
    var rs := [r1, r2, r3];
    assert rs[..2] == [r1, r2] && [r1, r2][..1] == [r1] && [r1][..0] == [];
    assert RegisterAll([r1])[name].endpoints == [Endpoint(a, e, resource)];
    assert RegisterAll([r1, r2])[name].endpoints == [Endpoint(a, e, resource), Endpoint(b, f, resource)];
  }
}
