/**
  Registrations of agents with the manager: the services of an agent and protocol (the second half of
  post_protocol_json in src/services/admin_mgmt_service.cc, and fillServices in
  src/util/service_mgmt_collection.cc).  The stored services of the pair are made to be the ones posted.
 */
module ServiceRegistry {

  type Fields = map<string, string>

  /** What the unique index of the collection covers. */
  datatype Key = Key(service: string, path: string, iotagent: string, protocol: string)

  datatype Document = Document(key: Key, fields: Fields)

  datatype Posting = Posting(service: string, path: string, fields: Fields)

  const SCHEMA: set<string> :=
    {"entity_type", "apikey", "token", "cbroker", "outgoing_route", "resource", "attributes", "static_attributes"}

  /** What the schema lets through beside the service and its path. */
  predicate Admissible(p: Posting) {
    p.fields.Keys <= SCHEMA
  }

  function KeyOf(p: Posting, endpoint: string, protocol: string): Key {
    Key(p.service, p.path, endpoint, protocol)
  }

  /** The key of the map the stored services are held in. */
  function Joined(service: string, path: string): string {
    service + "|" + path
  }

  function KeyString(k: Key): string {
    Joined(k.service, k.path)
  }

  predicate OfPair(k: Key, endpoint: string, protocol: string) {
    k.iotagent == endpoint && k.protocol == protocol
  }

  /** The objects compared to decide whether a service changed. */
  function PostedObject(p: Posting): Fields {
    p.fields["service" := p.service]["service_path" := p.path]
  }

  function StoredObject(d: Document): Fields {
    var named := d.fields["service" := d.key.service]["service_path" := d.key.path];
    named["iotagent" := d.key.iotagent]["protocol" := d.key.protocol]
  }

  function DataToSet(p: Posting, description: string): Fields {
    (p.fields - {"resource"})["description" := description]
  }

  // ---------- what a registration does ----------

  function Upsert(docs: map<Key, Fields>, k: Key, data: Fields): map<Key, Fields> {
    docs[k := (if k in docs then docs[k] else map[]) + data]
  }

  function UpsertAll(docs: map<Key, Fields>, endpoint: string, protocol: string, description: string,
                     posted: seq<Posting>)
    : map<Key, Fields>
  {
    if posted == [] then docs
    else
      var last := posted[|posted| - 1];
      Upsert(UpsertAll(docs, endpoint, protocol, description, posted[..|posted| - 1]),
             KeyOf(last, endpoint, protocol), DataToSet(last, description))
  }

  ghost predicate IsPosted(k: Key, endpoint: string, protocol: string, posted: seq<Posting>) {
    exists j :: 0 <= j < |posted| && KeyOf(posted[j], endpoint, protocol) == k
  }

  ghost predicate StringPosted(s: string, posted: seq<Posting>) {
    exists j :: 0 <= j < |posted| && Joined(posted[j].service, posted[j].path) == s
  }

  /** The services removed: of the stored services whose string was not posted, one for each string. */
  ghost predicate Surplus(docs: map<Key, Fields>, endpoint: string, protocol: string, posted: seq<Posting>,
                          removed: set<Key>) {
    && (forall k :: k in removed ==> k in docs && OfPair(k, endpoint, protocol) && !StringPosted(KeyString(k), posted))
    && (forall k :: k in docs && OfPair(k, endpoint, protocol) && !StringPosted(KeyString(k), posted)
          ==> exists r :: r in removed && KeyString(r) == KeyString(k))
    && (forall k, m :: k in removed && m in removed && KeyString(k) == KeyString(m) ==> k == m)
  }

  /** The documents held in a map by string. */
  ghost function HeldKeys(docs: map<Key, Fields>, services: map<string, Document>): set<Key> {
    set k | k in docs && Holds(services, k)
  }

  ghost predicate Holds(services: map<string, Document>, k: Key) {
    KeyString(k) in services && services[KeyString(k)].key == k
  }

  ghost predicate Stored(docs: map<Key, Fields>, d: Document, s: string) {
    KeyString(d.key) == s && d.key in docs && d.fields == docs[d.key]
  }

  /** The stored services of a pair by string, one for each string. */
  ghost predicate Found(docs: map<Key, Fields>, endpoint: string, protocol: string, found: map<string, Document>) {
    && (forall s :: s in found ==> Stored(docs, found[s], s) && OfPair(found[s].key, endpoint, protocol))
    && (forall k :: k in docs && OfPair(k, endpoint, protocol) ==> KeyString(k) in found)
  }

  class ServiceTable {
    var docs: map<Key, Fields>

    constructor ()
      ensures docs == map[]
    {
      docs := map[];
    }

    /** The stored services of a pair by string; of several with one string the cursor's first is kept. */
    method FillServices(endpoint: string, protocol: string) returns (found: map<string, Document>)
      ensures Found(docs, endpoint, protocol, found)
    {
      found := map[];
      var cursor := set k | k in docs && OfPair(k, endpoint, protocol);
      while cursor != {}
        invariant forall k :: k in cursor ==> k in docs && OfPair(k, endpoint, protocol)
        invariant forall s :: s in found ==> Stored(docs, found[s], s) && OfPair(found[s].key, endpoint, protocol)
        invariant forall k :: k in docs && OfPair(k, endpoint, protocol) && k !in cursor ==> KeyString(k) in found
      {
        var k :| k in cursor;
        cursor := cursor - {k};
        if KeyString(k) !in found {
          found := found[KeyString(k) := Document(k, docs[k])];
        }
      }
    }

    method Update(k: Key, data: Fields)
      modifies this
      ensures docs == Upsert(old(docs), k, data)
    {
      docs := docs[k := (if k in docs then docs[k] else map[]) + data];
    }

    /** Removes the document that matches in every field, if there is one. */
    method Remove(d: Document)
      modifies this
      ensures docs == if d.key in old(docs) && old(docs)[d.key] == d.fields then old(docs) - {d.key} else old(docs)
    {
      if d.key in docs && docs[d.key] == d.fields {
        docs := docs - {d.key};
      }
    }

    /** Removes the services nothing was posted for. */
    method RemoveRemaining(services: map<string, Document>)
      requires forall s :: s in services ==> Stored(docs, services[s], s)
      modifies this
      ensures docs == old(docs) - HeldKeys(old(docs), services)
    {
      var remaining := services;
      while remaining != map[]
        invariant forall s :: s in remaining ==>
                  s in services && remaining[s] == services[s] && Stored(docs, remaining[s], s)
        invariant forall k :: k in docs <==> k in old(docs) && (Holds(services, k) ==> KeyString(k) in remaining)
        invariant forall k :: k in docs ==> docs[k] == old(docs)[k]
        decreases |remaining.Keys|
      {
        var s :| s in remaining;
        Remove(remaining[s]);
        remaining := remaining - {s};
      }
    }

    /** Writes the services posted.  A service the cursor met is written when the posted object differs, and
        then is no longer one to remove. */
    method UpdatePosted(endpoint: string, protocol: string, description: string, posted: seq<Posting>,
                        found: map<string, Document>)
      returns (left: map<string, Document>)
      requires forall p :: p in posted ==> Admissible(p)
      modifies this
      ensures docs == UpsertAll(old(docs), endpoint, protocol, description, posted)
      ensures LeftOver(posted, found, left)
    {
      left := found;
      for i := 0 to |posted|
        invariant docs == UpsertAll(old(docs), endpoint, protocol, description, posted[..i])
        invariant LeftOver(posted[..i], found, left)
      {
        var p := posted[i];
        var s := Joined(p.service, p.path);
        PostedSoFar(posted, i);
        if s !in left || PostedObject(p) != StoredObject(left[s]) {
          Update(KeyOf(p, endpoint, protocol), DataToSet(p, description));
        } else {
          AlwaysChanged(p, left[s]);
        }
        left := left - {s};
        assert posted[..i + 1][..i] == posted[..i];
      }
      assert posted[..|posted|] == posted;
    }

    /** The services of a registration; no services is an empty list. */
    method PostServices(endpoint: string, protocol: string, description: string, posted: seq<Posting>)
      returns (ghost removed: set<Key>)
      requires forall p :: p in posted ==> Admissible(p)
      modifies this
      ensures Surplus(old(docs), endpoint, protocol, posted, removed)
      ensures docs == UpsertAll(old(docs), endpoint, protocol, description, posted) - removed
    {
      ghost var before := docs;
      var found := FillServices(endpoint, protocol);
      var left := UpdatePosted(endpoint, protocol, description, posted, found);
      LeftStored(before, endpoint, protocol, description, posted, found, left);
      SurplusFound(before, endpoint, protocol, posted, found, left);
      removed := HeldKeys(docs, left);
      RemoveRemaining(left);
    }
  }

  /** What writing the services posted leaves of what was found. */
  ghost predicate LeftOver(posted: seq<Posting>, found: map<string, Document>, left: map<string, Document>) {
    && (forall s :: s in left <==> s in found && !StringPosted(s, posted))
    && (forall s :: s in left ==> left[s] == found[s])
  }

  /** It is stored still as it was found, and nothing else with its strings is held. */
  lemma LeftStored(docs: map<Key, Fields>, endpoint: string, protocol: string, description: string,
                   posted: seq<Posting>, found: map<string, Document>, left: map<string, Document>)
    requires Found(docs, endpoint, protocol, found) && LeftOver(posted, found, left)
    ensures var after := UpsertAll(docs, endpoint, protocol, description, posted);
            (forall s :: s in left ==> Stored(after, left[s], s)) && HeldKeys(after, left) == HeldKeys(docs, left)
  {
    var after := UpsertAll(docs, endpoint, protocol, description, posted);
    forall s | s in left ensures Stored(after, left[s], s) && Stored(docs, left[s], s) {
      StillStored(docs, endpoint, protocol, description, posted, left[s].key);
    }
  }

  /** What is left holds the surplus. */
  lemma SurplusFound(docs: map<Key, Fields>, endpoint: string, protocol: string, posted: seq<Posting>,
                     found: map<string, Document>, left: map<string, Document>)
    requires Found(docs, endpoint, protocol, found) && LeftOver(posted, found, left)
    ensures Surplus(docs, endpoint, protocol, posted, HeldKeys(docs, left))
  {
    var removed := HeldKeys(docs, left);
    forall k | k in removed ensures k in docs && OfPair(k, endpoint, protocol) && !StringPosted(KeyString(k), posted) {
      HeldIsSurplus(docs, endpoint, protocol, posted, found, left, KeyString(k));
    }
    forall k | k in docs && OfPair(k, endpoint, protocol) && !StringPosted(KeyString(k), posted)
      ensures exists r :: r in removed && KeyString(r) == KeyString(k)
    {
      HeldIsSurplus(docs, endpoint, protocol, posted, found, left, KeyString(k));
      assert left[KeyString(k)].key in removed;
    }
  }

  lemma HeldIsSurplus(docs: map<Key, Fields>, endpoint: string, protocol: string, posted: seq<Posting>,
                      found: map<string, Document>, left: map<string, Document>, s: string)
    requires Found(docs, endpoint, protocol, found) && LeftOver(posted, found, left) && s in left
    ensures var r := left[s].key;
            KeyString(r) == s && r in HeldKeys(docs, left) && OfPair(r, endpoint, protocol) && !StringPosted(s, posted)
  {
    assert Stored(docs, found[s], s);
  }

  lemma PostedSoFar(posted: seq<Posting>, i: nat)
    requires i < |posted|
    ensures forall s :: StringPosted(s, posted[..i + 1]) <==>
            StringPosted(s, posted[..i]) || s == Joined(posted[i].service, posted[i].path)
  {
    forall s
      ensures StringPosted(s, posted[..i + 1])
              <==> StringPosted(s, posted[..i]) || s == Joined(posted[i].service, posted[i].path)
    {
      if StringPosted(s, posted[..i]) {
        var j :| 0 <= j < i && Joined(posted[..i][j].service, posted[..i][j].path) == s;
        assert posted[..i + 1][j] == posted[..i][j];
      }
      if s == Joined(posted[i].service, posted[i].path) {
        assert posted[..i + 1][i] == posted[i];
      }
    }
  }

  /** A stored service carries its agent and a posted one cannot: the two objects always differ, and so
      every service posted is written. */
  lemma AlwaysChanged(p: Posting, d: Document)
    requires Admissible(p)
    ensures PostedObject(p) != StoredObject(d)
  {
    assert "iotagent" in StoredObject(d);
    assert "iotagent" !in SCHEMA;
  }

  // ---------- what is stored afterwards ----------

  /** Posting adds the keys posted and leaves every other document as it is. */
  lemma {:induction false} Posted(docs: map<Key, Fields>, endpoint: string, protocol: string, description: string,
                                  posted: seq<Posting>, k: Key)
    ensures var after := UpsertAll(docs, endpoint, protocol, description, posted);
            && (k in after <==> k in docs || IsPosted(k, endpoint, protocol, posted))
            && (k in docs && !IsPosted(k, endpoint, protocol, posted) ==> after[k] == docs[k])
  {
    if posted != [] {
      var n := |posted| - 1;
      Posted(docs, endpoint, protocol, description, posted[..n], k);
      assert IsPosted(k, endpoint, protocol, posted)
          <==> IsPosted(k, endpoint, protocol, posted[..n]) || k == KeyOf(posted[n], endpoint, protocol) by {
        if IsPosted(k, endpoint, protocol, posted[..n]) {
          var j :| 0 <= j < n && KeyOf(posted[..n][j], endpoint, protocol) == k;
          assert KeyOf(posted[j], endpoint, protocol) == k;
        }
      }
    }
  }

  /** A service whose string was not posted is still as it was found. */
  lemma StillStored(docs: map<Key, Fields>, endpoint: string, protocol: string, description: string,
                    posted: seq<Posting>, k: Key)
    requires k in docs && !StringPosted(KeyString(k), posted)
    ensures k in UpsertAll(docs, endpoint, protocol, description, posted)
    ensures UpsertAll(docs, endpoint, protocol, description, posted)[k] == docs[k]
  {
    Posted(docs, endpoint, protocol, description, posted, k);
  }

  /** The posting is of this service, agent and protocol, and sets the field: every field it has but "resource",
      and "description" in any case. */
  predicate Sets(p: Posting, endpoint: string, protocol: string, k: Key, f: string) {
    && p.service == k.service && p.path == k.path && endpoint == k.iotagent && protocol == k.protocol
    && (f == "description" || (f in p.fields && f != "resource"))
  }

  ghost predicate NoneSets(posted: seq<Posting>, first: nat, endpoint: string, protocol: string, k: Key, f: string) {
    forall i :: first <= i < |posted| ==> !Sets(posted[i], endpoint, protocol, k, f)
  }

  predicate HasField(docs: map<Key, Fields>, k: Key, f: string) {
    k in docs && f in docs[k]
  }

  /** The last posting that sets the field. */
  ghost predicate SetsLast(posted: seq<Posting>, j: nat, endpoint: string, protocol: string, k: Key, f: string)
    requires j < |posted|
  {
    Sets(posted[j], endpoint, protocol, k, f) && NoneSets(posted, j + 1, endpoint, protocol, k, f)
  }

  lemma UpsertField(docs: map<Key, Fields>, endpoint: string, protocol: string, description: string, p: Posting,
                    k: Key, f: string)
    ensures var after := Upsert(docs, KeyOf(p, endpoint, protocol), DataToSet(p, description));
            && (HasField(after, k, f) <==> HasField(docs, k, f) || Sets(p, endpoint, protocol, k, f))
            && (HasField(docs, k, f) && !Sets(p, endpoint, protocol, k, f) ==> after[k][f] == docs[k][f])
            && (Sets(p, endpoint, protocol, k, f) ==>
                after[k][f] == if f == "description" then description else p.fields[f])
  {
  }

  lemma {:induction false} FieldPresent(docs: map<Key, Fields>, endpoint: string, protocol: string,
                                        description: string, posted: seq<Posting>, k: Key, f: string)
    ensures HasField(UpsertAll(docs, endpoint, protocol, description, posted), k, f) <==>
            HasField(docs, k, f) || !NoneSets(posted, 0, endpoint, protocol, k, f)
  {
    if posted != [] {
      var n := |posted| - 1;
      var before := UpsertAll(docs, endpoint, protocol, description, posted[..n]);
      FieldPresent(docs, endpoint, protocol, description, posted[..n], k, f);
      UpsertField(before, endpoint, protocol, description, posted[n], k, f);
      assert forall j :: 0 <= j < n ==> posted[..n][j] == posted[j];
    }
  }

  lemma {:induction false} FieldKept(docs: map<Key, Fields>, endpoint: string, protocol: string,
                                     description: string, posted: seq<Posting>, k: Key, f: string)
    requires HasField(docs, k, f) && NoneSets(posted, 0, endpoint, protocol, k, f)
    ensures var after := UpsertAll(docs, endpoint, protocol, description, posted);
            HasField(after, k, f) && after[k][f] == docs[k][f]
  {
    if posted != [] {
      var n := |posted| - 1;
      var before := UpsertAll(docs, endpoint, protocol, description, posted[..n]);
      assert forall j :: 0 <= j < n ==> posted[..n][j] == posted[j];
      FieldKept(docs, endpoint, protocol, description, posted[..n], k, f);
      UpsertField(before, endpoint, protocol, description, posted[n], k, f);
    }
  }

  lemma {:induction false} FieldLast(docs: map<Key, Fields>, endpoint: string, protocol: string,
                                     description: string, posted: seq<Posting>, j: nat, k: Key, f: string)
    requires j < |posted| && SetsLast(posted, j, endpoint, protocol, k, f)
    ensures var after := UpsertAll(docs, endpoint, protocol, description, posted);
            HasField(after, k, f) && after[k][f] == if f == "description" then description else posted[j].fields[f]
  {
    var n := |posted| - 1;
    var before := UpsertAll(docs, endpoint, protocol, description, posted[..n]);
    if j < n {
      assert forall i :: 0 <= i < n ==> posted[..n][i] == posted[i];
      FieldLast(docs, endpoint, protocol, description, posted[..n], j, k, f);
    }
    UpsertField(before, endpoint, protocol, description, posted[n], k, f);
  }

  /** A field has the value of the last posting of its service that sets it; one that none sets has the value it
      had, and there are no other fields. */
  lemma FieldExactly(docs: map<Key, Fields>, endpoint: string, protocol: string, description: string,
                     posted: seq<Posting>, k: Key, f: string)
    ensures var after := UpsertAll(docs, endpoint, protocol, description, posted);
            && (HasField(after, k, f) <==> HasField(docs, k, f) || !NoneSets(posted, 0, endpoint, protocol, k, f))
            && (HasField(docs, k, f) && NoneSets(posted, 0, endpoint, protocol, k, f) ==> after[k][f] == docs[k][f])
            && (forall j: nat :: j < |posted| && SetsLast(posted, j, endpoint, protocol, k, f) ==>
                HasField(after, k, f) && after[k][f] == if f == "description" then description else posted[j].fields[f])
  {
    FieldPresent(docs, endpoint, protocol, description, posted, k, f);
    if HasField(docs, k, f) && NoneSets(posted, 0, endpoint, protocol, k, f) {
      FieldKept(docs, endpoint, protocol, description, posted, k, f);
    }
    var after := UpsertAll(docs, endpoint, protocol, description, posted);
    forall j: nat | j < |posted| && SetsLast(posted, j, endpoint, protocol, k, f)
      ensures HasField(after, k, f) && after[k][f] == if f == "description" then description else posted[j].fields[f]
    {
      FieldLast(docs, endpoint, protocol, description, posted, j, k, f);
    }
  }

  /** The last posting of a service decides its fields: each it has but "resource" gets its value, "description" the
      one given; a field of the service that no posting of it sets keeps its value. */
  lemma LastPostingWins(docs: map<Key, Fields>, endpoint: string, protocol: string, description: string,
                        posted: seq<Posting>, j: nat)
    requires j < |posted|
    requires forall i :: j < i < |posted| ==> posted[i].service != posted[j].service || posted[i].path != posted[j].path
    ensures var k := Key(posted[j].service, posted[j].path, endpoint, protocol);
            var after := UpsertAll(docs, endpoint, protocol, description, posted);
            && k in after
            && (forall f :: f in posted[j].fields && f != "resource" && f != "description" ==>
                f in after[k] && after[k][f] == posted[j].fields[f])
            && "description" in after[k] && after[k]["description"] == description
            && (k in docs ==>
                forall f :: f in docs[k] && NoneSets(posted, 0, endpoint, protocol, k, f) ==>
                  f in after[k] && after[k][f] == docs[k][f])
  {
    var k := Key(posted[j].service, posted[j].path, endpoint, protocol);
    var after := UpsertAll(docs, endpoint, protocol, description, posted);
    FieldExactly(docs, endpoint, protocol, description, posted, k, "description");
    assert SetsLast(posted, j, endpoint, protocol, k, "description");
    forall f | f in posted[j].fields && f != "resource" && f != "description"
      ensures f in after[k] && after[k][f] == posted[j].fields[f]
    {
      FieldExactly(docs, endpoint, protocol, description, posted, k, f);
      assert SetsLast(posted, j, endpoint, protocol, k, f);
    }
    forall f | HasField(docs, k, f) && NoneSets(posted, 0, endpoint, protocol, k, f)
      ensures f in after[k] && after[k][f] == docs[k][f]
    {
      FieldExactly(docs, endpoint, protocol, description, posted, k, f);
    }
  }

  ghost predicate Settled(docs: map<Key, Fields>, r: Registration, after: map<Key, Fields>, removed: set<Key>) {
    && Surplus(docs, r.endpoint, r.protocol, r.posted, removed)
    && after == UpsertAll(docs, r.endpoint, r.protocol, r.description, r.posted) - removed
  }

  /** What a registration may make of the store: the order of the cursor is not fixed. */
  ghost predicate Outcome(docs: map<Key, Fields>, r: Registration, after: map<Key, Fields>) {
    exists removed :: Settled(docs, r, after, removed)
  }

  datatype Registration = Registration(endpoint: string, protocol: string, description: string, posted: seq<Posting>)

  /** Another stored service, or a posted one, has the string of a service that is not posted. */
  ghost predicate Clash(docs: map<Key, Fields>, r: Registration, k: Key) {
    && k in docs && OfPair(k, r.endpoint, r.protocol) && !IsPosted(k, r.endpoint, r.protocol, r.posted)
    && (StringPosted(KeyString(k), r.posted)
        || exists m :: m in docs && m != k && OfPair(m, r.endpoint, r.protocol) && KeyString(m) == KeyString(k))
  }

  /** The stored services of the registered pair are exactly those posted if and only if no clash was
      stored; whether there is one or not, other pairs are untouched and all services posted are stored. */
  lemma ExactUnlessClash(docs: map<Key, Fields>, r: Registration, after: map<Key, Fields>)
    requires Outcome(docs, r, after)
    ensures (forall k :: OfPair(k, r.endpoint, r.protocol) ==>
            (k in after <==> IsPosted(k, r.endpoint, r.protocol, r.posted)))
            <==> !exists k :: Clash(docs, r, k)
    ensures forall k :: !OfPair(k, r.endpoint, r.protocol) ==>
            (k in after <==> k in docs) && (k in docs ==> after[k] == docs[k])
    ensures forall k :: IsPosted(k, r.endpoint, r.protocol, r.posted) ==> k in after
  {
    var removed :| Settled(docs, r, after, removed);
    forall k | !OfPair(k, r.endpoint, r.protocol)
      ensures (k in after <==> k in docs) && (k in docs ==> after[k] == docs[k])
    {
      Kept(docs, r, after, removed, k);
    }
    forall k | IsPosted(k, r.endpoint, r.protocol, r.posted) ensures k in after {
      Kept(docs, r, after, removed, k);
    }
    forall k | OfPair(k, r.endpoint, r.protocol) && !IsPosted(k, r.endpoint, r.protocol, r.posted) && k in after
      ensures Clash(docs, r, k)
    {
      SurvivorClashes(docs, r, after, removed, k);
    }
    if k :| Clash(docs, r, k) {
      var survivor := ClashSurvives(docs, r, after, removed, k);
    }
  }

  ghost predicate KeptOrRemoved(docs: map<Key, Fields>, r: Registration, after: map<Key, Fields>, removed: set<Key>,
                                k: Key) {
    && (k in after <==> (k in docs || IsPosted(k, r.endpoint, r.protocol, r.posted)) && k !in removed)
    && (k in docs && k !in removed && !IsPosted(k, r.endpoint, r.protocol, r.posted) ==> after[k] == docs[k])
    && (k in removed ==> OfPair(k, r.endpoint, r.protocol) && !IsPosted(k, r.endpoint, r.protocol, r.posted))
    && (IsPosted(k, r.endpoint, r.protocol, r.posted) ==> OfPair(k, r.endpoint, r.protocol))
  }

  lemma Kept(docs: map<Key, Fields>, r: Registration, after: map<Key, Fields>, removed: set<Key>, k: Key)
    requires Settled(docs, r, after, removed)
    ensures KeptOrRemoved(docs, r, after, removed, k)
  {
    Posted(docs, r.endpoint, r.protocol, r.description, r.posted, k);
    if IsPosted(k, r.endpoint, r.protocol, r.posted) {
      PostedString(r, k);
    }
  }

  lemma SurvivorClashes(docs: map<Key, Fields>, r: Registration, after: map<Key, Fields>, removed: set<Key>, k: Key)
    requires Settled(docs, r, after, removed) && k in after
    requires OfPair(k, r.endpoint, r.protocol) && !IsPosted(k, r.endpoint, r.protocol, r.posted)
    ensures Clash(docs, r, k)
  {
    Kept(docs, r, after, removed, k);
    if !StringPosted(KeyString(k), r.posted) {
      var m :| m in removed && KeyString(m) == KeyString(k);
    }
  }

  lemma ClashSurvives(docs: map<Key, Fields>, r: Registration, after: map<Key, Fields>, removed: set<Key>, k: Key)
    returns (survivor: Key)
    requires Settled(docs, r, after, removed) && Clash(docs, r, k)
    ensures survivor in after && OfPair(survivor, r.endpoint, r.protocol)
            && !IsPosted(survivor, r.endpoint, r.protocol, r.posted)
  {
    Kept(docs, r, after, removed, k);
    survivor := k;
    if k in removed {
      survivor :| survivor in docs && survivor != k && OfPair(survivor, r.endpoint, r.protocol)
          && KeyString(survivor) == KeyString(k);
      Kept(docs, r, after, removed, survivor);
      if IsPosted(survivor, r.endpoint, r.protocol, r.posted) {
        PostedString(r, survivor);
      }
    }
  }

  lemma PostedString(r: Registration, k: Key)
    requires IsPosted(k, r.endpoint, r.protocol, r.posted)
    ensures StringPosted(KeyString(k), r.posted)
  {
    var j :| 0 <= j < |r.posted| && KeyOf(r.posted[j], r.endpoint, r.protocol) == k;
    assert Joined(r.posted[j].service, r.posted[j].path) == KeyString(k);
  }

  // ---------- runs ----------

  predicate NoBar(s: string) {
    '|' !in s
  }

  /** When no service name has a bar the string of a service tells service and path apart. */
  lemma JoinedInjective(s: string, p: string, t: string, q: string)
    requires NoBar(s) && NoBar(t) && Joined(s, p) == Joined(t, q)
    ensures s == t && p == q
  {
    var joined := Joined(s, p);
    assert joined[|s|] == '|' && joined[|t|] == '|';
    assert |s| == |t|;
    assert s == joined[..|s|] && t == joined[..|s|];
    assert p == joined[|s| + 1..] && q == joined[|s| + 1..];
  }

  ghost predicate Run(rs: seq<Registration>, states: seq<map<Key, Fields>>) {
    && |states| == |rs| + 1 && states[0] == map[]
    && forall i :: 0 <= i < |rs| ==> Outcome(states[i], rs[i], states[i + 1])
  }

  /** What the last registration of a pair posted. */
  ghost function LastPosted(rs: seq<Registration>, endpoint: string, protocol: string): seq<Posting> {
    if rs == [] then []
    else if rs[|rs| - 1].endpoint == endpoint && rs[|rs| - 1].protocol == protocol then rs[|rs| - 1].posted
    else LastPosted(rs[..|rs| - 1], endpoint, protocol)
  }

  predicate NoBars(rs: seq<Registration>) {
    forall r, p :: r in rs && p in r.posted ==> NoBar(p.service)
  }

  ghost predicate Follows(docs: map<Key, Fields>, rs: seq<Registration>) {
    forall k :: k in docs <==> IsPosted(k, k.iotagent, k.protocol, LastPosted(rs, k.iotagent, k.protocol))
  }

  /** Over every run of registrations whose service names have no bar, the stored services of each agent
      and protocol are those its last registration posted. */
  lemma {:induction false} StoreFollowsRegistrations(rs: seq<Registration>, states: seq<map<Key, Fields>>)
    requires Run(rs, states) && NoBars(rs)
    ensures Follows(states[|rs|], rs)
    ensures forall k :: k in states[|rs|] ==> NoBar(k.service)
  {
    if rs != [] {
      var n := |rs| - 1;
      var docs, r, after := states[n], rs[n], states[n + 1];
      assert Run(rs[..n], states[..n + 1]) by {
        forall i | 0 <= i < n ensures Outcome(states[..n + 1][i], rs[..n][i], states[..n + 1][i + 1]) {
          assert Outcome(states[i], rs[i], states[i + 1]);
        }
      }
      StoreFollowsRegistrations(rs[..n], states[..n + 1]);
      assert Outcome(docs, r, after);
      assert rs[n] in rs && (forall q :: q in rs[..n] ==> q in rs);
      forall k ensures k in after <==> IsPosted(k, k.iotagent, k.protocol, LastPosted(rs, k.iotagent, k.protocol)) {
        FollowsStep(docs, rs, after, k);
      }
      forall k | k in after ensures NoBar(k.service) {
        FollowsStep(docs, rs, after, k);
      }
    }
  }

  lemma FollowsStep(docs: map<Key, Fields>, rs: seq<Registration>, after: map<Key, Fields>, k: Key)
    requires rs != [] && Follows(docs, rs[..|rs| - 1])
    requires forall m :: m in docs ==> NoBar(m.service)
    requires Outcome(docs, rs[|rs| - 1], after)
    requires forall p :: p in rs[|rs| - 1].posted ==> NoBar(p.service)
    ensures k in after <==> IsPosted(k, k.iotagent, k.protocol, LastPosted(rs, k.iotagent, k.protocol))
    ensures k in after ==> NoBar(k.service)
  {
    var r := rs[|rs| - 1];
    forall m ensures !Clash(docs, r, m) {
      NoClash(docs, r, m);
    }
    ExactUnlessClash(docs, r, after);
    if OfPair(k, r.endpoint, r.protocol) && k in after {
      var j :| 0 <= j < |r.posted| && KeyOf(r.posted[j], r.endpoint, r.protocol) == k;
      assert r.posted[j] in r.posted;
    }
  }

  lemma NoClash(docs: map<Key, Fields>, r: Registration, k: Key)
    requires forall m :: m in docs ==> NoBar(m.service)
    requires forall p :: p in r.posted ==> NoBar(p.service)
    ensures !Clash(docs, r, k)
  {
    if Clash(docs, r, k) {
      if StringPosted(KeyString(k), r.posted) {
        var j :| 0 <= j < |r.posted| && Joined(r.posted[j].service, r.posted[j].path) == KeyString(k);
        JoinedInjective(r.posted[j].service, r.posted[j].path, k.service, k.path);
        assert false;
      } else {
        var m :| m in docs && m != k && OfPair(m, r.endpoint, r.protocol) && KeyString(m) == KeyString(k);
        JoinedInjective(m.service, m.path, k.service, k.path);
        assert false;
      }
    }
  }

  /** With bars a service can stay: that of "a|b" with path "c" outlives the posting of "a" with path "b|c". */
  lemma StaleServiceStays(docs: map<Key, Fields>, r: Registration, after: map<Key, Fields>, j: nat, a: string,
                          b: string, c: string)
    requires Outcome(docs, r, after)
    requires j < |r.posted| && r.posted[j].service == a && r.posted[j].path == b + "|" + c
    requires var k := Key(a + "|" + b, c, r.endpoint, r.protocol);
             k in docs && !IsPosted(k, r.endpoint, r.protocol, r.posted)
    ensures var k := Key(a + "|" + b, c, r.endpoint, r.protocol);
            k in after && after[k] == docs[k]
  {
    var k := Key(a + "|" + b, c, r.endpoint, r.protocol);
    BarsAssociate(a, b, c);
    assert StringPosted(KeyString(k), r.posted);
    var removed :| Settled(docs, r, after, removed);
    Kept(docs, r, after, removed, k);
  }

  lemma BarsAssociate(a: string, b: string, c: string)
    ensures Joined(a, b + "|" + c) == Joined(a + "|" + b, c)
  {
    assert a + "|" + (b + "|" + c) == a + "|" + b + "|" + c;
  }
}
