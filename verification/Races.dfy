/** Runs in which an operation that read an earlier state, or an id that contains a "/", breaks an invariant. */
module Races {
  import opened Etcd
  import opened Services
  import opened Instances
  import opened Runs
  import opened IndexRuns
  import opened InstanceRuns
  import SS = SchemaStore
  import P = Paths

  /** A request that can be registered on an empty store. */
  predicate Simple(req: ServiceRecord) {
    req.alias == "" && req.serviceId != ""
  }

  lemma FreshRegistration(kvs: Kvs, tenant: string, req: ServiceRecord)
    requires Service(tenant, req.serviceId) !in kvs && IndexOf(tenant, req) !in kvs && Simple(req)
    ensures AfterRegister(kvs, tenant, req, "") == Added(kvs, tenant, req)
    ensures HasRecord(Added(kvs, tenant, req), tenant, req.serviceId)
    ensures RecordAt(Added(kvs, tenant, req), tenant, req.serviceId) == req
  {
  }

  lemma ForcedRemoval(kvs: Kvs, tenant: string, serviceId: string)
    requires HasRecord(kvs, tenant, serviceId) && serviceId != ""
    ensures AfterUnregister(kvs, kvs, kvs, tenant, serviceId, true, "", false) ==
      Removed(kvs, tenant, serviceId, RecordAt(kvs, tenant, serviceId))
  {
  }

  /** A run in which one service is registered. */
  lemma OneRegistered(tenant: string, req: ServiceRecord) returns (states: seq<State>, events: seq<Event>)
    requires Simple(req)
    ensures IsRun(states, events) && |events| == 1 && events[0] == At(AddService(tenant, req, ""), 0)
    ensures states[1] == State(Added(map[], tenant, req), {})
    ensures HasRecord(states[1].kvs, tenant, req.serviceId) && RecordAt(states[1].kvs, tenant, req.serviceId) == req
  {
    FreshRegistration(map[], tenant, req);
    var e := At(AddService(tenant, req, ""), 0);
    states, events := [State(map[], {})], [];
    ExtendIsRun(states, events, e);
    states, events := Extend(states, e), events + [e];
  }

  /** A run in which an id is registered and removed. */
  lemma RegisteredThenRemoved(tenant: string, req: ServiceRecord) returns (states: seq<State>, events: seq<Event>)
    requires Simple(req)
    ensures IsRun(states, events) && |states| == 3 && |events| == 2 && IsAtomic(events)
    ensures events[0].action == AddService(tenant, req, "") && events[1].action.RemoveService?
    ensures HasRecord(states[1].kvs, tenant, req.serviceId) && RecordAt(states[1].kvs, tenant, req.serviceId) == req
    ensures forall k :: k in states[2].kvs ==> k.DependencyQueue?
  {
    states, events := OneRegistered(tenant, req);
    ForcedRemoval(states[1].kvs, tenant, req.serviceId);
    var e := At(RemoveService(tenant, req.serviceId, true, "", false), 1);
    ExtendIsRun(states, events, e);
    states, events := Extend(states, e), events + [e];
  }

  // ---------------------------------------------------------------- the index

  /** A run in which the id of alice is registered, removed, and registered again for bob. */
  lemma ReusedId(tenant: string, alice: ServiceRecord, bob: ServiceRecord) returns (states: seq<State>, events: seq<Event>)
    requires Simple(alice) && Simple(bob) && alice.serviceId == bob.serviceId
    ensures IsRun(states, events) && |states| == 4
    ensures HasRecord(states[1].kvs, tenant, bob.serviceId) && RecordAt(states[1].kvs, tenant, bob.serviceId) == alice
    ensures HasRecord(states[3].kvs, tenant, bob.serviceId) && RecordAt(states[3].kvs, tenant, bob.serviceId) == bob
    ensures IndexConsistent(states[3].kvs)
  {
    states, events := RegisteredThenRemoved(tenant, alice);
    FreshRegistration(states[2].kvs, tenant, bob);
    var c := At(AddService(tenant, bob, ""), 2);
    ExtendIsRun(states, events, c);
    states, events := Extend(states, c), events + [c];
    IndexInEveryAtomicRun(states, events, 3);
  }

  /** A property update that read one record and commits over another one of the same id leaves the index
      entry of that one without a record, whatever the two records are. */
  lemma OldPropertiesBreakIndex(tenant: string, alice: ServiceRecord, bob: ServiceRecord, properties: map<string, string>)
    requires Simple(alice) && Simple(bob) && alice.serviceId == bob.serviceId && !SameIdentity(alice, bob)
    ensures exists states: seq<State>, events: seq<Event> :: IsRun(states, events) && !Indexed(states[|states| - 1])
  {
    var states, events := ReusedId(tenant, alice, bob);
    var e := At(SetProperties(tenant, bob.serviceId, properties), 1);
    PropertiesExact(states[1].kvs, states[3].kvs, tenant, bob.serviceId, properties);
    ExtendIsRun(states, events, e);
    assert !Indexed(Extend(states, e)[4]);
  }

  /** A schema write that read a record and commits after its removal brings the record back without an index,
      even though the id never stood for anything else. */
  lemma OldSchemaWriteRevivesService(tenant: string, req: ServiceRecord, schemaId: string, c: SS.Content)
    requires Simple(req) && schemaId !in req.schemas
    ensures exists states: seq<State>, events: seq<Event> ::
      IsRun(states, events) && !Indexed(states[|states| - 1]) && FaithfulRequests(events, (t, s) => req)
  {
    var states, events := RevivingRun(tenant, req, schemaId, c);
  }

  lemma RevivingRun(tenant: string, req: ServiceRecord, schemaId: string, c: SS.Content)
    returns (states: seq<State>, events: seq<Event>)
    requires Simple(req) && schemaId !in req.schemas
    ensures IsRun(states, events) && FaithfulRequests(events, (t, s) => req) && !Indexed(states[|states| - 1])
  {
    states, events := RegisteredThenRemoved(tenant, req);
    IndexInEveryAtomicRun(states, events, 2);
    var e := At(PutSchema(tenant, req.serviceId, schemaId, c), 1);
    SchemaStepIndexExact(Reads(states[1], states[1]), states[2], e.action);
    ExtendIsRun(states, events, e);
    OneRegistration(events, tenant, req, e);
    states, events := Extend(states, e), events + [e];
  }

  lemma OneRegistration(events: seq<Event>, tenant: string, req: ServiceRecord, e: Event)
    requires |events| == 2 && events[0].action == AddService(tenant, req, "") && events[1].action.RemoveService?
    requires e.action.PutSchema?
    ensures FaithfulRequests(events + [e], (t, s) => req)
  {
  }

  // ---------------------------------------------------------------- instances

  /** A run in which two registrations of one instance race: the lease of the first is replaced but alive. */
  lemma RacingRegistrations(tenant: string, req: ServiceRecord, id: string, one: string, two: string)
    returns (states: seq<State>, events: seq<Event>)
    requires Simple(req)
    ensures IsRun(states, events) && |states| == 6 && InstanceConsistent(states[5])
    ensures var k := Lease(tenant, req.serviceId, id);
      && k in states[3].kvs && states[3].kvs[k].value == LeaseNumber(1)
      && k in states[5].kvs && states[5].kvs[k].value == LeaseNumber(2)
    ensures Service(tenant, req.serviceId) in states[5].kvs && 1 in states[5].leases
  {
    states, events := OneRegistered(tenant, req);
    var b := At(GrantLease(1), 1);
    ExtendIsRun(states, events, b);
    states, events := Extend(states, b), events + [b];
    assert Service(tenant, req.serviceId) in states[2].kvs && states[2].leases == {1};
    var c := At(AddInstance(tenant, req.serviceId, id, one, 1), 2);
    ExtendIsRun(states, events, c);
    states, events := Extend(states, c), events + [c];
    var d := At(GrantLease(2), 3);
    ExtendIsRun(states, events, d);
    states, events := Extend(states, d), events + [d];
    assert Service(tenant, req.serviceId) in states[4].kvs && states[4].leases == {1, 2};
    var e := At(AddInstance(tenant, req.serviceId, id, two, 2), 4);
    ExtendIsRun(states, events, e);
    states, events := Extend(states, e), events + [e];
    CurrentUpdatesKeepInstances(states, events, 5);
  }

  /** An instance update that read the lease of a registration which has since been replaced tears the
      instance key and the lease key apart, although both leases are alive. */
  lemma OldInstanceUpdateBreaksLease(tenant: string, req: ServiceRecord, id: string, one: string, two: string, three: string)
    requires Simple(req)
    ensures exists states: seq<State>, events: seq<Event> ::
      IsRun(states, events) && !InstanceConsistent(states[|states| - 1])
  {
    var states, events := RacingRegistrations(tenant, req, id, one, two);
    var f := At(ChangeInstance(tenant, req.serviceId, id, three), 3);
    ExtendIsRun(states, events, f);
    UpdateInstanceExact(states[3].kvs, states[5], tenant, req.serviceId, id, three);
    assert !InstanceConsistent(Extend(states, f)[6]);
  }

  // ---------------------------------------------------------------- schemas

  /** A run of a registration and a put, each on the state it read. */
  lemma OnePut(tenant: string, req: ServiceRecord, x: string, c: SS.Content)
    returns (states: seq<State>, events: seq<Event>, kvs: Kvs, put: Kvs)
    requires Simple(req)
    ensures IsRun(states, events) && IsAtomic(events) && |states| == 3 && |events| == 2
    ensures kvs == Added(map[], tenant, req) && HasRecord(kvs, tenant, req.serviceId)
    ensures put == SS.AfterPutContent(kvs, kvs, tenant, req.serviceId, x, c)
    ensures states[0].kvs == map[] && states[1].kvs == kvs && states[2].kvs == put
  {
    states, events := OneRegistered(tenant, req);
    var e := At(PutSchema(tenant, req.serviceId, x, c), 1);
    ExtendIsRun(states, events, e);
    states, events := Extend(states, e), events + [e];
    kvs, put := states[1].kvs, states[2].kvs;
  }

  /** One more step: the collector, with contents from state `i` and references from state `j`. */
  lemma ThenCollect(states: seq<State>, events: seq<Event>, i: nat, j: nat)
    returns (longer: seq<State>, more: seq<Event>)
    requires IsRun(states, events) && i < |states| && j < |states|
    ensures IsRun(longer, more) && |longer| == |states| + 1 && more == events + [Event(CollectContents, i, j)]
    ensures forall m :: 0 <= m < |states| ==> longer[m] == states[m]
    ensures longer[|states|].kvs == states[|states| - 1].kvs - SS.Garbage(states[i].kvs, states[j].kvs)
  {
    var e := Event(CollectContents, i, j);
    ExtendIsRun(states, events, e);
    longer, more := Extend(states, e), events + [e];
  }

  /** A run in which two puts of different new schemas both read the record before either of them. */
  lemma TwoPuts(tenant: string, req: ServiceRecord, x: string, y: string, c: SS.Content)
    returns (states: seq<State>, events: seq<Event>)
    requires Simple(req) && x != y && x !in req.schemas && y !in req.schemas
    ensures IsRun(states, events) && |states| == 4
    ensures var kvs := states[3].kvs;
      && SchemaRef(tenant, req.serviceId, x) in kvs && HasRecord(kvs, tenant, req.serviceId)
      && RecordAt(kvs, tenant, req.serviceId).schemas == req.schemas + [y]
  {
    states, events := OneRegistered(tenant, req);
    var e := At(PutSchema(tenant, req.serviceId, x, c), 1);
    ExtendIsRun(states, events, e);
    states, events := Extend(states, e), events + [e];
    assert SchemaRef(tenant, req.serviceId, x) in states[2].kvs;
    var f := At(PutSchema(tenant, req.serviceId, y, c), 1);
    ExtendIsRun(states, events, f);
    states, events := Extend(states, f), events + [f];
  }

  /** The record written by the second put does not list the schema of the first, */
  lemma TwoPutsUnlist(tenant: string, req: ServiceRecord, x: string, y: string, c: SS.Content)
    requires Simple(req) && x != y && x !in req.schemas && y !in req.schemas
    ensures exists states: seq<State>, events: seq<Event> :: IsRun(states, events) && !SS.RefsListed(states[|states| - 1].kvs)
  {
    var states, events := TwoPuts(tenant, req, x, y, c);
    assert !SS.RefListed(states[3].kvs, SchemaRef(tenant, req.serviceId, x));
  }

  /** so a later replacement of all schemas that does not name it, on the current state, leaves its reference
      behind. */
  lemma TwoPutsLeaveOrphan(tenant: string, req: ServiceRecord, x: string, y: string, c: SS.Content, ids: seq<string>,
                           contents: seq<SS.Content>)
    requires Simple(req) && x != y && x !in req.schemas && y !in req.schemas
    requires |ids| == |contents| && x !in ids
    ensures exists states: seq<State>, events: seq<Event> ::
      IsRun(states, events) && events != [] &&
      events[|events| - 1] == At(PutSchemas(tenant, req.serviceId, ids, contents), |events| - 1) &&
      SchemaRef(tenant, req.serviceId, x) in states[|states| - 1].kvs
  {
    var states, events := OrphanRun(tenant, req, x, y, c, ids, contents);
  }

  lemma OrphanRun(tenant: string, req: ServiceRecord, x: string, y: string, c: SS.Content, ids: seq<string>,
                  contents: seq<SS.Content>) returns (states: seq<State>, events: seq<Event>)
    requires Simple(req) && x != y && x !in req.schemas && y !in req.schemas
    requires |ids| == |contents| && x !in ids
    ensures IsRun(states, events) && |events| == 4
    ensures events[3] == At(PutSchemas(tenant, req.serviceId, ids, contents), 3)
    ensures SchemaRef(tenant, req.serviceId, x) in states[4].kvs
  {
    states, events := TwoPuts(tenant, req, x, y, c);
    var e := At(PutSchemas(tenant, req.serviceId, ids, contents), 3);
    OrphanStays(states[3].kvs, tenant, req.serviceId, x, ids, contents);
    ExtendIsRun(states, events, e);
    states, events := Extend(states, e), events + [e];
  }

  lemma OrphanStays(kvs: Kvs, tenant: string, serviceId: string, x: string, ids: seq<string>, contents: seq<SS.Content>)
    requires HasRecord(kvs, tenant, serviceId) && SchemaRef(tenant, serviceId, x) in kvs
    requires x !in RecordAt(kvs, tenant, serviceId).schemas && |ids| == |contents| && x !in ids
    ensures SchemaRef(tenant, serviceId, x) in SS.AfterPutMany(kvs, kvs, tenant, serviceId, ids, contents)
  {
    SS.PutAllFrame(kvs, tenant, serviceId, ids, contents, SchemaRef(tenant, serviceId, x));
  }

  /** A run in which a content loses its only reference and gets one again. */
  lemma Rereferenced(tenant: string, req: ServiceRecord, x: string, c: SS.Content)
    returns (states: seq<State>, events: seq<Event>)
    requires Simple(req)
    ensures IsRun(states, events) && |states| == 5
    ensures SchemaContent(tenant, c.hash) in states[3].kvs && forall k :: k in states[3].kvs ==> !k.SchemaRef?
    ensures SS.RefsResolved(states[4].kvs) && SS.Referenced(states[4].kvs, tenant, c.hash)
    ensures forall e :: e in events ==> !e.action.CollectContents?
  {
    states, events := OneRegistered(tenant, req);
    var e := At(PutSchema(tenant, req.serviceId, x, c), 1);
    ExtendIsRun(states, events, e);
    states, events := Extend(states, e), events + [e];
    OnlyRef(states[1].kvs, tenant, req.serviceId, x, c);
    var f := At(DropRef(tenant, req.serviceId, x), 2);
    ExtendIsRun(states, events, f);
    states, events := Extend(states, f), events + [f];
    assert states[3].kvs == SS.AfterDeleteRef(states[2].kvs, tenant, req.serviceId, x);
    ExtendIsRun(states, events, e);
    states, events := Extend(states, e), events + [e];
    OnlyRefAgain(states[1].kvs, states[3].kvs, tenant, req.serviceId, x, c);
  }

  lemma OnlyRef(kvs: Kvs, tenant: string, serviceId: string, x: string, c: SS.Content)
    requires HasRecord(kvs, tenant, serviceId) && forall k :: k in kvs ==> k.Service? || k.Index?
    ensures var after := SS.AfterPutContent(kvs, kvs, tenant, serviceId, x, c);
      && SchemaContent(tenant, c.hash) in after
      && forall k :: k in after && k.SchemaRef? ==> k == SchemaRef(tenant, serviceId, x)
  {
  }

  lemma OnlyRefAgain(read: Kvs, now: Kvs, tenant: string, serviceId: string, x: string, c: SS.Content)
    requires HasRecord(read, tenant, serviceId) && forall k :: k in now ==> !k.SchemaRef?
    requires SchemaContent(tenant, c.hash) in now
    ensures var after := SS.AfterPutContent(read, now, tenant, serviceId, x, c);
      SS.RefsResolved(after) && SS.Referenced(after, tenant, c.hash)
  {
    var after := SS.AfterPutContent(read, now, tenant, serviceId, x, c);
    var refKey := SchemaRef(tenant, serviceId, x);
    assert refKey in after && SS.TextAt(after, refKey) == c.hash;
    forall k | k in after && k.SchemaRef? ensures k == refKey {
    }
  }

  /** A collector that listed the references before a put drops the content the put refers to. */
  lemma OldCollectorLosesContent(tenant: string, req: ServiceRecord, x: string, c: SS.Content)
    requires Simple(req)
    ensures exists states: seq<State>, events: seq<Event> :: IsRun(states, events) && !SS.RefsResolved(states[|states| - 1].kvs)
  {
    var states, events := Rereferenced(tenant, req, x, c);
    var e := At(CollectContents, 3);
    assert SchemaContent(tenant, c.hash) in SS.Garbage(states[3].kvs, states[3].kvs);
    SS.CollectExact(states[3].kvs, states[3].kvs, states[4].kvs);
    ExtendIsRun(states, events, e);
    assert !SS.RefsResolved(Extend(states, e)[5].kvs);
  }

  /** A collector that lists the contents after a put but the references from before it drops the content as well,
      although on no single state of the run is there anything to collect. */
  lemma SplitCollectorLosesContent(tenant: string, req: ServiceRecord, x: string, c: SS.Content)
    requires Simple(req) && P.ReadTenant(SchemaRef(tenant, req.serviceId, x)) == tenant
    ensures exists states: seq<State>, events: seq<Event> ::
      && IsRun(states, events) && |states| == 4 && events[2] == Event(CollectContents, 2, 1)
      && (forall i :: 0 <= i < 3 ==> SS.Garbage(states[i].kvs, states[i].kvs) == {})
      && SS.RefsResolved(states[2].kvs) && !SS.RefsResolved(states[3].kvs)
  {
    var states, events := SplitRun(tenant, req, x, c);
  }

  lemma SplitRun(tenant: string, req: ServiceRecord, x: string, c: SS.Content)
    returns (states: seq<State>, events: seq<Event>)
    requires Simple(req) && P.ReadTenant(SchemaRef(tenant, req.serviceId, x)) == tenant
    ensures IsRun(states, events) && |states| == 4 && events[2] == Event(CollectContents, 2, 1)
    ensures forall i :: 0 <= i < 3 ==> SS.Garbage(states[i].kvs, states[i].kvs) == {}
    ensures SS.RefsResolved(states[2].kvs) && !SS.RefsResolved(states[3].kvs)
  {
    var kvs, put;
    states, events, kvs, put := OnePut(tenant, req, x, c);
    FirstPut(kvs, tenant, req.serviceId, x, c);
    FirstPutCollected(kvs, tenant, req.serviceId, x, c);
    NoContents(kvs);
    NoContents(map[]);
    states, events := ThenCollect(states, events, 2, 1);
  }

  lemma NoContents(kvs: Kvs)
    requires forall k :: k in kvs ==> !k.SchemaContent?
    ensures SS.Garbage(kvs, kvs) == {}
  {
  }

  /** What a first put adds. */
  lemma FirstPutKeys(kvs: Kvs, tenant: string, serviceId: string, x: string, c: SS.Content)
    requires HasRecord(kvs, tenant, serviceId) && forall k :: k in kvs ==> k.Service? || k.Index?
    ensures var after := SS.AfterPutContent(kvs, kvs, tenant, serviceId, x, c);
      var refKey := SchemaRef(tenant, serviceId, x);
      && refKey in after && SS.TextAt(after, refKey) == c.hash && SchemaContent(tenant, c.hash) in after
      && forall k :: k in after ==> (k.SchemaRef? ==> k == refKey) && (k.SchemaContent? ==> k == SchemaContent(tenant, c.hash))
  {
  }

  lemma FirstPut(kvs: Kvs, tenant: string, serviceId: string, x: string, c: SS.Content)
    requires HasRecord(kvs, tenant, serviceId) && forall k :: k in kvs ==> k.Service? || k.Index?
    requires P.ReadTenant(SchemaRef(tenant, serviceId, x)) == tenant
    ensures var after := SS.AfterPutContent(kvs, kvs, tenant, serviceId, x, c);
      SS.RefsResolved(after) && SS.Garbage(after, after) == {}
  {
    FirstPutKeys(kvs, tenant, serviceId, x, c);
    OnlyContentNamed(SS.AfterPutContent(kvs, kvs, tenant, serviceId, x, c), SchemaRef(tenant, serviceId, x), c.hash);
  }

  lemma OnlyContentNamed(kvs: Kvs, refKey: Key, hash: string)
    requires refKey in kvs && refKey.SchemaRef? && SS.TextAt(kvs, refKey) == hash && P.ReadTenant(refKey) == refKey.tenant
    requires forall k :: k in kvs && k.SchemaContent? ==> k == SchemaContent(refKey.tenant, hash)
    ensures SS.Garbage(kvs, kvs) == {}
  {
    assert SS.Named(kvs, refKey.tenant, hash);
  }

  lemma FirstPutCollected(kvs: Kvs, tenant: string, serviceId: string, x: string, c: SS.Content)
    requires HasRecord(kvs, tenant, serviceId) && forall k :: k in kvs ==> k.Service? || k.Index?
    ensures var after := SS.AfterPutContent(kvs, kvs, tenant, serviceId, x, c);
      !SS.RefsResolved(after - SS.Garbage(after, kvs))
  {
    var after := SS.AfterPutContent(kvs, kvs, tenant, serviceId, x, c);
    FirstPutKeys(kvs, tenant, serviceId, x, c);
    var refKey, content := SchemaRef(tenant, serviceId, x), SchemaContent(tenant, c.hash);
    assert content in SS.Garbage(after, kvs);
    assert refKey in after - SS.Garbage(after, kvs);
  }

  /** So does the deletion of that one content. */
  lemma OldDeletionLosesContent(tenant: string, req: ServiceRecord, x: string, c: SS.Content)
    requires Simple(req)
    ensures exists states: seq<State>, events: seq<Event> ::
      IsRun(states, events) && (forall e :: e in events ==> !e.action.CollectContents?) &&
      !SS.RefsResolved(states[|states| - 1].kvs)
  {
    var states, events := DeletingRun(tenant, req, x, c);
  }

  lemma DeletingRun(tenant: string, req: ServiceRecord, x: string, c: SS.Content)
    returns (states: seq<State>, events: seq<Event>)
    requires Simple(req)
    ensures IsRun(states, events) && !SS.RefsResolved(states[|states| - 1].kvs)
    ensures forall e :: e in events ==> !e.action.CollectContents?
  {
    states, events := Rereferenced(tenant, req, x, c);
    var e := At(DropContent(tenant, c.hash), 3);
    assert !SS.Referenced(states[3].kvs, tenant, c.hash);
    SS.DeleteContentExact(states[3].kvs, states[4].kvs, tenant, c.hash);
    ExtendIsRun(states, events, e);
    states, events := Extend(states, e), events + [e];
  }

  // ---------------------------------------------------------------- slashes in service ids

  /** The only reference to a content is read back under another tenant when its service id contains a "/", so
      the collector of all contents drops what it refers to, on the current state. */
  lemma SlashLosesContent(domain: string, project: string, a: string, b: string, x: string, req: ServiceRecord, c: SS.Content)
    requires P.Plain(domain) && P.Plain(project) && P.Plain(a) && P.Plain(b) && P.Plain(x)
    requires Simple(req) && req.serviceId == a + "/" + b && project + "/" + a != domain + "/" + project
    ensures exists states: seq<State>, events: seq<Event> ::
      IsRun(states, events) && IsAtomic(events) && !SS.RefsResolved(states[|states| - 1].kvs)
  {
    var states, events := PutThenCollect(domain + "/" + project, req, x, c);
    SlashedContent(Added(map[], domain + "/" + project, req), domain, project, a, b, x, c);
  }

  /** A run of a registration, a put and a collection, each on the state it read. */
  lemma PutThenCollect(tenant: string, req: ServiceRecord, x: string, c: SS.Content)
    returns (states: seq<State>, events: seq<Event>)
    requires Simple(req)
    ensures IsRun(states, events) && IsAtomic(events) && HasRecord(Added(map[], tenant, req), tenant, req.serviceId)
    ensures var kvs := Added(map[], tenant, req);
      var put := SS.AfterPutContent(kvs, kvs, tenant, req.serviceId, x, c);
      states[|states| - 1].kvs == put - SS.Garbage(put, put)
  {
    var kvs, put;
    states, events, kvs, put := OnePut(tenant, req, x, c);
    states, events := ThenCollect(states, events, 2, 2);
  }

  lemma SlashedContent(kvs: Kvs, domain: string, project: string, a: string, b: string, x: string, c: SS.Content)
    requires P.Plain(domain) && P.Plain(project) && P.Plain(a) && P.Plain(b) && P.Plain(x)
    requires project + "/" + a != domain + "/" + project && HasRecord(kvs, domain + "/" + project, a + "/" + b)
    requires forall k :: k in kvs ==> !k.SchemaRef?
    ensures var after := SS.AfterPutContent(kvs, kvs, domain + "/" + project, a + "/" + b, x, c);
      !SS.RefsResolved(after - SS.Garbage(after, after))
  {
    var after := SS.AfterPutContent(kvs, kvs, domain + "/" + project, a + "/" + b, x, c);
    var refKey := SchemaRef(domain + "/" + project, a + "/" + b, x);
    P.SlashShiftsTenant(domain, project, a, b, x);
    assert refKey in after && SS.TextAt(after, refKey) == c.hash && forall k :: k in after && k.SchemaRef? ==> k == refKey;
    assert !SS.Named(after, refKey.tenant, c.hash);
    assert SS.RefsResolved(after);
    SS.CollectAloneExact(after);
  }

  /** Unregistering a service also takes the instances of a service whose id continues its id behind a "/". */
  lemma RemovalTakesNestedInstances(tenant: string, outer: ServiceRecord, inner: ServiceRecord, rest: string, id: string,
                                    data: string)
    requires Simple(outer) && Simple(inner) && inner.serviceId == outer.serviceId + "/" + rest
    requires IndexOf(tenant, inner) != IndexOf(tenant, outer)
    ensures exists states: seq<State>, events: seq<Event> ::
      && IsRun(states, events) && IsAtomic(events) && |states| == 6
      && Instance(tenant, inner.serviceId, id) in states[4].kvs && Instance(tenant, inner.serviceId, id) !in states[5].kvs
      && Service(tenant, inner.serviceId) in states[5].kvs
  {
    var states, events := NestedInstance(tenant, outer, inner, rest, id, data);
    ForcedRemoval(states[4].kvs, tenant, outer.serviceId);
    var e := At(RemoveService(tenant, outer.serviceId, true, "", false), 4);
    ExtendIsRun(states, events, e);
    assert Within(inner.serviceId, outer.serviceId) by {
      assert outer.serviceId + "/" == inner.serviceId[..|outer.serviceId| + 1];
    }
    var after := Extend(states, e);
    assert Instance(tenant, inner.serviceId, id) !in after[5].kvs;
    assert Service(tenant, inner.serviceId) in after[5].kvs;
    assert IsRun(after, events + [e]) && IsAtomic(events + [e]);
  }

  lemma NestedInstance(tenant: string, outer: ServiceRecord, inner: ServiceRecord, rest: string, id: string, data: string)
    returns (states: seq<State>, events: seq<Event>)
    requires Simple(outer) && Simple(inner) && inner.serviceId == outer.serviceId + "/" + rest
    requires IndexOf(tenant, inner) != IndexOf(tenant, outer)
    ensures IsRun(states, events) && IsAtomic(events) && |states| == 5 && |events| == 4
    ensures HasRecord(states[4].kvs, tenant, outer.serviceId) && Service(tenant, inner.serviceId) in states[4].kvs
    ensures Instance(tenant, inner.serviceId, id) in states[4].kvs
  {
    assert |inner.serviceId| > |outer.serviceId|;
    states, events := OneRegistered(tenant, outer);
    FreshRegistration(states[1].kvs, tenant, inner);
    var a := At(AddService(tenant, inner, ""), 1);
    ExtendIsRun(states, events, a);
    states, events := Extend(states, a), events + [a];
    assert HasRecord(states[2].kvs, tenant, outer.serviceId) && Service(tenant, inner.serviceId) in states[2].kvs;
    var b := At(GrantLease(1), 2);
    ExtendIsRun(states, events, b);
    states, events := Extend(states, b), events + [b];
    assert states[3].kvs == states[2].kvs && 1 in states[3].leases;
    var c := At(AddInstance(tenant, inner.serviceId, id, data, 1), 3);
    ExtendIsRun(states, events, c);
    states, events := Extend(states, c), events + [c];
  }
}
