/** Registering, updating and unregistering micro-services: the service record, its
    index entry and its alias entry are three keys that one transaction writes together. */
module Services {
  import opened Etcd
  import opened Options

  function IndexOf(tenant: string, r: ServiceRecord): Key {
    Index(tenant, r.environment, r.appId, r.serviceName, r.version)
  }

  function AliasOf(tenant: string, r: ServiceRecord): Key {
    Alias(tenant, r.environment, r.appId, r.alias, r.version)
  }

  /** The fields of a record that its index and alias keys are made of. */
  predicate SameIdentity(a: ServiceRecord, b: ServiceRecord) {
    && a.environment == b.environment
    && a.appId == b.appId
    && a.serviceName == b.serviceName
    && a.version == b.version
    && a.alias == b.alias
  }

  predicate HasText(kvs: Kvs, k: Key, s: string) {
    k in kvs && kvs[k].value == Text(s)
  }

  predicate HasRecord(kvs: Kvs, tenant: string, serviceId: string) {
    Service(tenant, serviceId) in kvs && kvs[Service(tenant, serviceId)].value.Record?
  }

  function RecordAt(kvs: Kvs, tenant: string, serviceId: string): ServiceRecord
    requires HasRecord(kvs, tenant, serviceId)
  {
    kvs[Service(tenant, serviceId)].value.service
  }

  /** A stored record is found again through its index key and, when it has an alias, its alias key. */
  predicate RecordIndexed(kvs: Kvs, tenant: string, serviceId: string) {
    && HasRecord(kvs, tenant, serviceId)
    && var r := RecordAt(kvs, tenant, serviceId);
    && HasText(kvs, IndexOf(tenant, r), serviceId)
    && (r.alias != "" ==> HasText(kvs, AliasOf(tenant, r), serviceId))
  }

  /** An index entry names a live record that has exactly that index key. */
  predicate IndexOwned(kvs: Kvs, k: Key)
    requires k in kvs && k.Index?
  {
    && kvs[k].value.Text?
    && HasRecord(kvs, k.tenant, kvs[k].value.text)
    && IndexOf(k.tenant, RecordAt(kvs, k.tenant, kvs[k].value.text)) == k
  }

  /** An alias entry names a live record that has exactly that, non-empty, alias key. */
  predicate AliasOwned(kvs: Kvs, k: Key)
    requires k in kvs && k.Alias?
  {
    && kvs[k].value.Text?
    && HasRecord(kvs, k.tenant, kvs[k].value.text)
    && AliasOf(k.tenant, RecordAt(kvs, k.tenant, kvs[k].value.text)) == k
    && k.alias != ""
  }

  predicate RecordsIndexed(kvs: Kvs) {
    forall k :: k in kvs && k.Service? ==> RecordIndexed(kvs, k.tenant, k.serviceId)
  }

  predicate IndexesOwned(kvs: Kvs) {
    forall k :: k in kvs && k.Index? ==> IndexOwned(kvs, k)
  }

  predicate AliasesOwned(kvs: Kvs) {
    forall k :: k in kvs && k.Alias? ==> AliasOwned(kvs, k)
  }

  /** Only instance and lease keys go away with a lease. */
  predicate OnlyInstancesLeased(kvs: Kvs) {
    forall k :: k in kvs && kvs[k].lease != 0 ==> k.Instance? || k.Lease?
  }

  predicate IndexConsistent(kvs: Kvs) {
    RecordsIndexed(kvs) && IndexesOwned(kvs) && AliasesOwned(kvs) && OnlyInstancesLeased(kvs)
  }

  /** The invariant looks at service, index and alias keys only. */
  lemma OtherKeysDoNotMatter(kvs: Kvs, after: Kvs)
    requires IndexConsistent(kvs) && OnlyInstancesLeased(after)
    requires forall k: Key :: k.Service? || k.Index? || k.Alias? ==>
               (k in kvs <==> k in after) && (k in kvs ==> kvs[k].value == after[k].value)
    ensures IndexConsistent(after)
  {
    forall k | k in after && k.Service? ensures RecordIndexed(after, k.tenant, k.serviceId) {
      assert RecordIndexed(kvs, k.tenant, k.serviceId);
    }
    forall k | k in after && k.Index? ensures IndexOwned(after, k) {
      assert IndexOwned(kvs, k);
    }
    forall k | k in after && k.Alias? ensures AliasOwned(after, k) {
      assert AliasOwned(kvs, k);
    }
  }

  // ---------------------------------------------------------------- register

  datatype RegisterResult = Registered(serviceId: string) | AlreadyExists | Internal

  function WithId(req: ServiceRecord, generated: string): ServiceRecord {
    if req.serviceId == "" then req.(serviceId := generated) else req
  }

  predicate Conflicts(kvs: Kvs, tenant: string, service: ServiceRecord) {
    || Service(tenant, service.serviceId) in kvs
    || IndexOf(tenant, service) in kvs
    || (service.alias != "" && AliasOf(tenant, service) in kvs)
  }

  function Added(kvs: Kvs, tenant: string, service: ServiceRecord): Kvs {
    var indexed := kvs[Service(tenant, service.serviceId) := Entry(Record(service), 0)]
                      [IndexOf(tenant, service) := Entry(Text(service.serviceId), 0)];
    if service.alias == "" then indexed
    else indexed[AliasOf(tenant, service) := Entry(Text(service.serviceId), 0)]
  }

  /** The store after a registration: the two or three keys that did not exist, or no change at all. */
  function AfterRegister(kvs: Kvs, tenant: string, req: ServiceRecord, generated: string): Kvs {
    var service := WithId(req, generated);
    if Conflicts(kvs, tenant, service) then kvs else Added(kvs, tenant, service)
  }

  /** What holds the index key of a service or, failing that, its alias key. */
  function Holder(kvs: Kvs, tenant: string, service: ServiceRecord): Option<Value> {
    if IndexOf(tenant, service) in kvs then Some(kvs[IndexOf(tenant, service)].value)
    else if service.alias != "" && AliasOf(tenant, service) in kvs then Some(kvs[AliasOf(tenant, service)].value)
    else None
  }

  function RegisterAnswer(kvs: Kvs, tenant: string, req: ServiceRecord, generated: string): RegisterResult {
    var service := WithId(req, generated);
    var holder := Holder(kvs, tenant, service);
    if !Conflicts(kvs, tenant, service) then Registered(service.serviceId)
    else if req.serviceId != "" && holder != Some(Text(req.serviceId)) then AlreadyExists
    else if holder.None? || !holder.value.Text? then Internal
    else Registered(holder.value.text)
  }

  function RegisterOps(tenant: string, service: ServiceRecord): seq<Op> {
    [Put(Service(tenant, service.serviceId), Record(service), 0)] +
    [Put(IndexOf(tenant, service), Text(service.serviceId), 0)] +
    if service.alias == "" then [] else [Put(AliasOf(tenant, service), Text(service.serviceId), 0)]
  }

  function UniqueCmps(tenant: string, service: ServiceRecord): seq<Cmp> {
    [NotExists(Service(tenant, service.serviceId)), NotExists(IndexOf(tenant, service))] +
    if service.alias == "" then [] else [NotExists(AliasOf(tenant, service))]
  }

  function HolderGets(tenant: string, service: ServiceRecord): seq<Op> {
    [Get(IndexOf(tenant, service))] + if service.alias == "" then [] else [Get(AliasOf(tenant, service))]
  }

  lemma RegisterOpsAdd(kvs: Kvs, tenant: string, service: ServiceRecord)
    ensures Apply(RegisterOps(tenant, service), kvs) == Added(kvs, tenant, service)
  {
    var a := Put(Service(tenant, service.serviceId), Record(service), 0);
    var b := Put(IndexOf(tenant, service), Text(service.serviceId), 0);
    var c := Put(AliasOf(tenant, service), Text(service.serviceId), 0);
    assert [] + [a] == [a];
    ApplyAppend([], a, kvs);
    ApplyAppend([a], b, kvs);
    ApplyAppend([a] + [b], c, kvs);
    assert [a] + [b] + [] == [a] + [b];
  }

  lemma UniqueCmpsMeanNoConflict(kvs: Kvs, tenant: string, service: ServiceRecord)
    ensures (forall c :: c in UniqueCmps(tenant, service) ==> Holds(c, kvs)) <==> !Conflicts(kvs, tenant, service)
  {
    var cmps := UniqueCmps(tenant, service);
    assert cmps[0] == NotExists(Service(tenant, service.serviceId)) && cmps[0] in cmps;
    assert cmps[1] == NotExists(IndexOf(tenant, service)) && cmps[1] in cmps;
    if service.alias != "" {
      assert cmps[2] == NotExists(AliasOf(tenant, service)) && cmps[2] in cmps;
    }
  }

  lemma HolderGetsFind(kvs: Kvs, tenant: string, service: ServiceRecord)
    ensures Apply(HolderGets(tenant, service), kvs) == kvs
    ensures var found := Found(HolderGets(tenant, service), kvs);
            Holder(kvs, tenant, service) == if found == [] then None else Some(found[0])
  {
    var a, b := Get(IndexOf(tenant, service)), Get(AliasOf(tenant, service));
    ApplyAppend([], a, kvs);
    ApplyAppend([a], b, kvs);
    assert [] + [a] == [a] && [a] + [] == [a];
    if service.alias == "" {
      assert HolderGets(tenant, service) == [a] && [a][1..] == [];
    } else {
      assert HolderGets(tenant, service) == [a, b] && [a, b][1..] == [b] && [b][1..] == [];
      assert Found([b], kvs) == if b.key in kvs then [kvs[b.key].value] else [];
    }
  }

  method RegisterService(db: Backend, tenant: string, req: ServiceRecord, generated: string)
    returns (r: RegisterResult)
    modifies db
    ensures db.kvs == AfterRegister(old(db.kvs), tenant, req, generated) && db.leases == old(db.leases)
    ensures r == RegisterAnswer(old(db.kvs), tenant, req, generated)
  {
    var service := req;
    if |req.serviceId| == 0 {
      service := req.(serviceId := generated);
    }
    var key, index, alias :=
      Service(tenant, service.serviceId), IndexOf(tenant, service), AliasOf(tenant, service);
    var ops := [Put(key, Record(service), 0), Put(index, Text(service.serviceId), 0)];
    var unique := [NotExists(key), NotExists(index)];
    var failOps := [Get(index)];
    if |service.alias| > 0 {
      ops := ops + [Put(alias, Text(service.serviceId), 0)];
      unique := unique + [NotExists(alias)];
      failOps := failOps + [Get(alias)];
    }
    assert ops == RegisterOps(tenant, service);
    assert unique == UniqueCmps(tenant, service);
    assert failOps == HolderGets(tenant, service);
    RegisterOpsAdd(db.kvs, tenant, service);
    UniqueCmpsMeanNoConflict(db.kvs, tenant, service);
    HolderGetsFind(db.kvs, tenant, service);

    var resp := db.TxnWithCmp(ops, unique, failOps);
    if resp.succeeded {
      return Registered(service.serviceId);
    }
    if |req.serviceId| != 0 {
      if |resp.values| == 0 || resp.values[0] != Text(req.serviceId) {
        return AlreadyExists;
      }
    }
    if |resp.values| == 0 || !resp.values[0].Text? {
      return Internal;
    }
    return Registered(resp.values[0].text);
  }

  lemma AddedKeeps(kvs: Kvs, tenant: string, service: ServiceRecord)
    requires IndexConsistent(kvs) && !Conflicts(kvs, tenant, service)
    ensures IndexConsistent(Added(kvs, tenant, service))
  {
    AddedKeepsRecords(kvs, tenant, service);
    AddedKeepsIndexes(kvs, tenant, service);
    AddedKeepsAliases(kvs, tenant, service);
  }

  lemma AddedKeepsRecords(kvs: Kvs, tenant: string, service: ServiceRecord)
    requires RecordsIndexed(kvs) && !Conflicts(kvs, tenant, service)
    ensures RecordsIndexed(Added(kvs, tenant, service))
  {
    var after := Added(kvs, tenant, service);
    forall k | k in after && k.Service? ensures RecordIndexed(after, k.tenant, k.serviceId) {
      if k != Service(tenant, service.serviceId) {
        assert RecordIndexed(kvs, k.tenant, k.serviceId);
      }
    }
  }

  lemma AddedKeepsIndexes(kvs: Kvs, tenant: string, service: ServiceRecord)
    requires IndexesOwned(kvs) && Service(tenant, service.serviceId) !in kvs
    ensures IndexesOwned(Added(kvs, tenant, service))
  {
    var after := Added(kvs, tenant, service);
    forall k | k in after && k.Index? ensures IndexOwned(after, k) {
      if k in kvs {
        assert IndexOwned(kvs, k);
      }
    }
  }

  lemma AddedKeepsAliases(kvs: Kvs, tenant: string, service: ServiceRecord)
    requires AliasesOwned(kvs) && Service(tenant, service.serviceId) !in kvs
    ensures AliasesOwned(Added(kvs, tenant, service))
  {
    var after := Added(kvs, tenant, service);
    forall k | k in after && k.Alias? ensures AliasOwned(after, k) {
      if k in kvs {
        assert AliasOwned(kvs, k);
      }
    }
  }

  /** Every id a registration answers with is a live record afterwards. It is the record that owns the
      requested index key, unless that key was free and the requested alias belongs to another service. */
  lemma RegisteredIsLive(kvs: Kvs, tenant: string, req: ServiceRecord, generated: string)
    requires IndexConsistent(kvs)
    ensures IndexConsistent(AfterRegister(kvs, tenant, req, generated))
    ensures RegisterAnswer(kvs, tenant, req, generated).Registered? ==>
      var after := AfterRegister(kvs, tenant, req, generated);
      var id := RegisterAnswer(kvs, tenant, req, generated).serviceId;
      && RecordIndexed(after, tenant, id)
      && (req.serviceId != "" ==> id == req.serviceId)
      && var r := RecordAt(after, tenant, id);
      && (IndexOf(tenant, r) == IndexOf(tenant, req) ||
          (IndexOf(tenant, req) !in kvs && req.alias != "" && AliasOf(tenant, r) == AliasOf(tenant, req)))
  {
    var service := WithId(req, generated);
    if !Conflicts(kvs, tenant, service) {
      AddedKeeps(kvs, tenant, service);
      assert Service(tenant, service.serviceId) in Added(kvs, tenant, service);
    } else if Holder(kvs, tenant, service).Some? {
      var k := if IndexOf(tenant, service) in kvs then IndexOf(tenant, service) else AliasOf(tenant, service);
      assert k in kvs && kvs[k].value.Text?;
      assert Service(tenant, kvs[k].value.text) in kvs;
    }
  }

  /** The id that the index key of a request names or, when that is free, its alias key. */
  predicate OwnedBy(kvs: Kvs, tenant: string, req: ServiceRecord, id: string) {
    if IndexOf(tenant, req) in kvs then HasText(kvs, IndexOf(tenant, req), id)
    else req.alias != "" && HasText(kvs, AliasOf(tenant, req), id)
  }

  predicate Unowned(kvs: Kvs, tenant: string, req: ServiceRecord) {
    IndexOf(tenant, req) !in kvs && (req.alias == "" || AliasOf(tenant, req) !in kvs)
  }

  /** A registration whose index or alias key is taken changes nothing. It answers with the owner, as on every
      restart of a service, unless it asks for another id. */
  lemma RepeatedRegistration(kvs: Kvs, tenant: string, req: ServiceRecord, generated: string, owner: string)
    requires OwnedBy(kvs, tenant, req, owner)
    ensures AfterRegister(kvs, tenant, req, generated) == kvs
    ensures RegisterAnswer(kvs, tenant, req, generated) ==
      if req.serviceId == "" || req.serviceId == owner then Registered(owner) else AlreadyExists
  {
  }

  /** A registration whose index and alias keys are free stores the request under its id, which is found through both
      keys, and changes no other key; it is refused when that id is in use. */
  lemma FreshRegistration(kvs: Kvs, tenant: string, req: ServiceRecord, generated: string)
    requires Unowned(kvs, tenant, req)
    ensures
      var id := if req.serviceId == "" then generated else req.serviceId;
      var after, answer := AfterRegister(kvs, tenant, req, generated), RegisterAnswer(kvs, tenant, req, generated);
      if Service(tenant, id) in kvs then
        after == kvs && answer == if req.serviceId == "" then Internal else AlreadyExists
      else
        && answer == Registered(id)
        && RecordIndexed(after, tenant, id) && RecordAt(after, tenant, id) == req.(serviceId := id)
        && OwnedBy(after, tenant, req, id)
        && forall k :: k != Service(tenant, id) && k != IndexOf(tenant, req) && (req.alias == "" || k != AliasOf(tenant, req)) ==>
             Same(kvs, after, k)
  {
  }

  /** In a store whose index is intact there is no third case, so a registration is refused exactly when it asks for an
      id that is not the owner's while a key is owned, or for an id in use while none is. */
  lemma RefusedRegistrationExact(kvs: Kvs, tenant: string, req: ServiceRecord, generated: string)
    requires IndexConsistent(kvs)
    ensures Unowned(kvs, tenant, req) || exists id :: OwnedBy(kvs, tenant, req, id)
    ensures RegisterAnswer(kvs, tenant, req, generated) == AlreadyExists <==>
      && req.serviceId != "" && !OwnedBy(kvs, tenant, req, req.serviceId)
      && (Unowned(kvs, tenant, req) ==> Service(tenant, req.serviceId) in kvs)
    ensures RegisterAnswer(kvs, tenant, req, generated) == Internal <==>
      req.serviceId == "" && Unowned(kvs, tenant, req) && Service(tenant, generated) in kvs
  {
    if Unowned(kvs, tenant, req) {
      FreshRegistration(kvs, tenant, req, generated);
    } else {
      var k := if IndexOf(tenant, req) in kvs then IndexOf(tenant, req) else AliasOf(tenant, req);
      assert if k.Index? then IndexOwned(kvs, k) else AliasOwned(kvs, k);
      assert OwnedBy(kvs, tenant, req, kvs[k].value.text);
      RepeatedRegistration(kvs, tenant, req, generated, kvs[k].value.text);
    }
  }

  // ---------------------------------------------------------------- properties

  /** `read` is the store the record was read from, `now` the store the transaction commits on. */
  function AfterProperties(read: Kvs, now: Kvs, tenant: string, serviceId: string,
                           properties: map<string, string>): Kvs {
    if HasRecord(read, tenant, serviceId) && Service(tenant, serviceId) in now then
      now[Service(tenant, serviceId) :=
            Entry(Record(RecordAt(read, tenant, serviceId).(properties := properties)), 0)]
    else now
  }

  method PutServiceProperties(db: Backend, tenant: string, serviceId: string, properties: map<string, string>)
    returns (ok: bool)
    modifies db
    ensures db.kvs == AfterProperties(old(db.kvs), old(db.kvs), tenant, serviceId, properties)
    ensures ok == HasRecord(old(db.kvs), tenant, serviceId) && db.leases == old(db.leases)
  {
    if !HasRecord(db.kvs, tenant, serviceId) {
      return false;
    }
    var key := Service(tenant, serviceId);
    var op := Put(key, Record(RecordAt(db.kvs, tenant, serviceId).(properties := properties)), 0);
    ApplyAppend([], op, db.kvs);
    assert [] + [op] == [op];
    GuardedTxn(db.Contents(), [op], Exists(key));
    var resp := db.TxnWithCmp([op], [Exists(key)], []);
    ok := resp.succeeded;
  }

  /** A property update of a service that was read and still exists stores the new properties in the record that was
      read, with all other fields as they were read, and changes no other key; any other one changes nothing. */
  lemma PropertiesStored(read: Kvs, now: Kvs, tenant: string, serviceId: string, properties: map<string, string>)
    ensures
      var after := AfterProperties(read, now, tenant, serviceId, properties);
      if HasRecord(read, tenant, serviceId) && Service(tenant, serviceId) in now then
        && HasRecord(after, tenant, serviceId)
        && RecordAt(after, tenant, serviceId).properties == properties
        && RecordAt(after, tenant, serviceId).(properties := map[]) == RecordAt(read, tenant, serviceId).(properties := map[])
        && forall k :: k != Service(tenant, serviceId) ==> Same(now, after, k)
      else after == now
  {
  }

  /** Writing a record under a service key keeps the index intact exactly when it replaces a record with
      the same index fields; in particular it must not bring back a removed service. */
  lemma RewriteExact(kvs: Kvs, tenant: string, serviceId: string, written: ServiceRecord)
    requires IndexConsistent(kvs)
    ensures IndexConsistent(kvs[Service(tenant, serviceId) := Entry(Record(written), 0)])
      <==> HasRecord(kvs, tenant, serviceId) && SameIdentity(written, RecordAt(kvs, tenant, serviceId))
  {
    var after := kvs[Service(tenant, serviceId) := Entry(Record(written), 0)];
    if HasRecord(kvs, tenant, serviceId) && SameIdentity(written, RecordAt(kvs, tenant, serviceId)) {
      RewriteKeeps(kvs, tenant, serviceId, written);
    }
    if IndexConsistent(after) {
      assert RecordIndexed(after, tenant, serviceId);
      assert IndexOwned(kvs, IndexOf(tenant, written));
      var current := RecordAt(kvs, tenant, serviceId);
      assert RecordIndexed(kvs, tenant, serviceId);
      if current.alias != "" {
        assert AliasOwned(after, AliasOf(tenant, current));
      } else {
        RewriteGainsNoAlias(kvs, tenant, serviceId, written);
      }
    }
  }

  lemma RewriteKeeps(kvs: Kvs, tenant: string, serviceId: string, written: ServiceRecord)
    requires IndexConsistent(kvs) && HasRecord(kvs, tenant, serviceId)
    requires SameIdentity(written, RecordAt(kvs, tenant, serviceId))
    ensures IndexConsistent(kvs[Service(tenant, serviceId) := Entry(Record(written), 0)])
  {
    var after := kvs[Service(tenant, serviceId) := Entry(Record(written), 0)];
    forall k | k in after && k.Service? ensures RecordIndexed(after, k.tenant, k.serviceId) {
      assert RecordIndexed(kvs, k.tenant, k.serviceId);
    }
    forall k | k in after && k.Index? ensures IndexOwned(after, k) {
      assert IndexOwned(kvs, k);
    }
    forall k | k in after && k.Alias? ensures AliasOwned(after, k) {
      assert AliasOwned(kvs, k);
    }
  }

  lemma RewriteGainsNoAlias(kvs: Kvs, tenant: string, serviceId: string, written: ServiceRecord)
    requires IndexConsistent(kvs) && HasRecord(kvs, tenant, serviceId)
    requires RecordAt(kvs, tenant, serviceId).alias == ""
    requires RecordIndexed(kvs[Service(tenant, serviceId) := Entry(Record(written), 0)], tenant, serviceId)
    ensures written.alias == ""
  {
    if AliasOf(tenant, written) in kvs {
      assert AliasOwned(kvs, AliasOf(tenant, written));
    }
  }

  // ---------------------------------------------------------------- unregister

  /** The schema, summary, reference, instance and lease keys, all of which carry a service id. */
  predicate Attached(k: Key) {
    k.Schema? || k.SchemaSummary? || k.SchemaRef? || k.Instance? || k.Lease?
  }

  /** The attached keys that the prefix of a service id finds. */
  predicate Below(k: Key, tenant: string, serviceId: string) {
    Attached(k) && k.tenant == tenant && Within(k.serviceId, serviceId)
  }

  /** The attached keys of the service itself. */
  predicate Own(k: Key, tenant: string, serviceId: string) {
    Attached(k) && k.tenant == tenant && k.serviceId == serviceId
  }

  /** Everything a removal of a service with record `r` takes. */
  predicate BelongsTo(k: Key, tenant: string, serviceId: string, r: ServiceRecord) {
    || k == IndexOf(tenant, r) || k == AliasOf(tenant, r)
    || k == Service(tenant, serviceId) || k == Tag(tenant, serviceId)
    || Below(k, tenant, serviceId)
  }

  /** The request that is queued for the dependency rules: the service, as a consumer, has no providers any more. */
  function NoProviders(tenant: string, r: ServiceRecord): Value {
    ConsumerDependency(ServiceKey(tenant, r.environment, r.appId, r.serviceName, r.version, r.alias), [], true)
  }

  function Removed(kvs: Kvs, tenant: string, serviceId: string, r: ServiceRecord): Kvs {
    (map k | k in kvs && !BelongsTo(k, tenant, serviceId, r) :: kvs[k])
      [DependencyQueue(tenant, serviceId, "0") := Entry(NoProviders(tenant, r), 0)]
  }

  datatype UnregisterResult = Unregistered | NotAllowed | NoService | Depended | Deployed

  predicate HasInstances(kvs: Kvs, tenant: string, serviceId: string) {
    exists k :: k in kvs && k.Instance? && k.tenant == tenant && Within(k.serviceId, serviceId)
  }

  /** The checks made before anything is written: the record is read from `read`, the instances are counted
      on `counted`; `self` is the service center's own id and `depended` says that another service still
      consumes this one. */
  function UnregisterCheck(read: Kvs, counted: Kvs, tenant: string, serviceId: string, force: bool, self: string,
                           depended: bool): UnregisterResult {
    if serviceId == self then NotAllowed
    else if !HasRecord(read, tenant, serviceId) then NoService
    else if !force && depended then Depended
    else if !force && HasInstances(counted, tenant, serviceId) then Deployed
    else Unregistered
  }

  /** The transaction of an unregistration whose checks passed. */
  function AfterUnregister(read: Kvs, counted: Kvs, now: Kvs, tenant: string, serviceId: string, force: bool,
                           self: string, depended: bool): Kvs {
    if UnregisterCheck(read, counted, tenant, serviceId, force, self, depended).Unregistered? &&
       Service(tenant, serviceId) in now
    then Removed(now, tenant, serviceId, RecordAt(read, tenant, serviceId))
    else now
  }

  /** The answers, in the order of the checks. */
  lemma RefusalExact(kvs: Kvs, tenant: string, serviceId: string, force: bool, self: string, depended: bool)
    ensures
      var answer := UnregisterCheck(kvs, kvs, tenant, serviceId, force, self, depended);
      var allowed, deployed := serviceId != self, exists k :: k in kvs && Covers(Family.Instances, tenant, serviceId, k);
      && (answer == NotAllowed <==> !allowed)
      && (answer == NoService <==> allowed && !HasRecord(kvs, tenant, serviceId))
      && (answer == Depended <==> allowed && HasRecord(kvs, tenant, serviceId) && !force && depended)
      && (answer == Deployed <==> allowed && HasRecord(kvs, tenant, serviceId) && !force && !depended && deployed)
  {
    if exists k :: k in kvs && Covers(Family.Instances, tenant, serviceId, k) {
      assert HasInstances(kvs, tenant, serviceId);
    }
  }

  /** A stored service is unregistered exactly when it is not the service center and either the call is forced, or
      nothing depends on the service and no instance is found by its prefix; a refused call changes nothing. */
  lemma UnregisterServiceExact(kvs: Kvs, tenant: string, serviceId: string, force: bool, self: string, depended: bool)
    requires HasRecord(kvs, tenant, serviceId)
    ensures
      var after := AfterUnregister(kvs, kvs, kvs, tenant, serviceId, force, self, depended);
      && (Service(tenant, serviceId) !in after <==>
            && serviceId != self
            && (force || (!depended && forall k :: k in kvs ==> !Covers(Family.Instances, tenant, serviceId, k))))
      && (Service(tenant, serviceId) in after ==> after == kvs)
  {
    RefusalExact(kvs, tenant, serviceId, force, self, depended);
  }

  /** Whatever the service was read from: an unregistration that is not forced takes no instance that was there
      when the instances were counted. */
  lemma UnforcedSparesInstances(read: Kvs, counted: Kvs, now: Kvs, tenant: string, serviceId: string, self: string,
                                depended: bool, k: Key)
    requires k.Instance? && k in counted && k in now
    ensures Same(now, AfterUnregister(read, counted, now, tenant, serviceId, false, self, depended), k)
  {
    if Below(k, tenant, serviceId) {
      assert HasInstances(counted, tenant, serviceId);
    }
  }

  /** The index and alias entries of a service. */
  predicate Names(kvs: Kvs, k: Key, tenant: string, serviceId: string) {
    (k.Index? || k.Alias?) && k.tenant == tenant && HasText(kvs, k, serviceId)
  }

  /** A removal on the current record leaves nothing of the service: no record, no tag, no index or alias entry that
      names it and nothing that its prefix finds. It queues the end of the service as a consumer, and every other
      key stays as it is. */
  lemma RemovalExact(kvs: Kvs, tenant: string, serviceId: string)
    requires IndexConsistent(kvs) && HasRecord(kvs, tenant, serviceId)
    ensures
      var r := RecordAt(kvs, tenant, serviceId);
      var after, queued := Removed(kvs, tenant, serviceId, r), DependencyQueue(tenant, serviceId, "0");
      && queued in after && after[queued].value.ConsumerDependency?
      && after[queued].value.providers == [] && after[queued].value.override
      && after[queued].value.consumer == ServiceKey(tenant, r.environment, r.appId, r.serviceName, r.version, r.alias)
      && forall k :: k != queued ==>
           if k == Service(tenant, serviceId) || k == Tag(tenant, serviceId) || Names(kvs, k, tenant, serviceId) ||
              (exists f: Family :: Covers(f, tenant, serviceId, k))
           then k !in after else Same(kvs, after, k)
  {
    var r := RecordAt(kvs, tenant, serviceId);
    var after := Removed(kvs, tenant, serviceId, r);
    assert RecordIndexed(kvs, tenant, serviceId);
    forall k: Key
      ensures (k.Index? || k.Alias?) && k in kvs ==>
        (Names(kvs, k, tenant, serviceId) <==> k == IndexOf(tenant, r) || k == AliasOf(tenant, r))
      ensures (exists f: Family :: Covers(f, tenant, serviceId, k)) <==> Below(k, tenant, serviceId)
    {
      CoveredIsBelow(tenant, serviceId, k);
      if k.Index? && k in kvs {
        assert IndexOwned(kvs, k);
      }
      if k.Alias? && k in kvs {
        assert AliasOwned(kvs, k);
      }
    }
  }

  lemma CoveredIsBelow(tenant: string, serviceId: string, k: Key)
    ensures (exists f: Family :: Covers(f, tenant, serviceId, k)) <==> Below(k, tenant, serviceId)
  {
    if Below(k, tenant, serviceId) {
      var f := match k case Schema(_, _, _) => Family.Schemas case SchemaSummary(_, _, _) => Family.Summaries
                       case SchemaRef(_, _, _) => Family.Refs case Instance(_, _, _) => Family.Instances
                       case _ => Family.Leases;
      assert Covers(f, tenant, serviceId, k);
    }
  }

  /** When a removal on the word of record `r` takes exactly the registration keys of the stored record. */
  predicate RemovalFits(kvs: Kvs, tenant: string, serviceId: string, r: ServiceRecord)
    requires HasRecord(kvs, tenant, serviceId)
  {
    var current := RecordAt(kvs, tenant, serviceId);
    && IndexOf(tenant, r) == IndexOf(tenant, current)
    && (if current.alias == "" then AliasOf(tenant, r) !in kvs else r.alias == current.alias)
  }

  /** A removal on the word of a record read earlier keeps the index intact exactly when that record
      still names the index and alias keys of the stored one. */
  lemma RemoveExact(kvs: Kvs, tenant: string, serviceId: string, r: ServiceRecord)
    requires IndexConsistent(kvs) && HasRecord(kvs, tenant, serviceId)
    ensures IndexConsistent(Removed(kvs, tenant, serviceId, r)) <==> RemovalFits(kvs, tenant, serviceId, r)
  {
    if RemovalFits(kvs, tenant, serviceId, r) {
      RemoveKeeps(kvs, tenant, serviceId, r);
    } else {
      RemoveBreaks(kvs, tenant, serviceId, r);
    }
  }

  lemma RemoveBreaks(kvs: Kvs, tenant: string, serviceId: string, r: ServiceRecord)
    requires IndexConsistent(kvs) && HasRecord(kvs, tenant, serviceId) && !RemovalFits(kvs, tenant, serviceId, r)
    ensures !IndexConsistent(Removed(kvs, tenant, serviceId, r))
  {
    var current, after := RecordAt(kvs, tenant, serviceId), Removed(kvs, tenant, serviceId, r);
    assert RecordIndexed(kvs, tenant, serviceId);
    if IndexOf(tenant, r) != IndexOf(tenant, current) {
      assert !IndexOwned(after, IndexOf(tenant, current));
    } else if current.alias != "" {
      assert !AliasOwned(after, AliasOf(tenant, current));
    } else {
      RemoveTakesAlias(kvs, tenant, serviceId, r);
    }
  }

  /** A removal on the word of a record with an alias can take the alias of another service. */
  lemma RemoveTakesAlias(kvs: Kvs, tenant: string, serviceId: string, r: ServiceRecord)
    requires IndexConsistent(kvs) && HasRecord(kvs, tenant, serviceId)
    requires RecordAt(kvs, tenant, serviceId).alias == "" && AliasOf(tenant, r) in kvs
    ensures !IndexConsistent(Removed(kvs, tenant, serviceId, r))
  {
    assert AliasOwned(kvs, AliasOf(tenant, r));
    var other := kvs[AliasOf(tenant, r)].value.text;
    assert Service(tenant, other) in Removed(kvs, tenant, serviceId, r);
    assert !RecordIndexed(Removed(kvs, tenant, serviceId, r), tenant, other);
  }

  lemma RemoveKeeps(kvs: Kvs, tenant: string, serviceId: string, r: ServiceRecord)
    requires IndexConsistent(kvs) && HasRecord(kvs, tenant, serviceId)
    requires RemovalFits(kvs, tenant, serviceId, r)
    ensures IndexConsistent(Removed(kvs, tenant, serviceId, r))
  {
    var after := Removed(kvs, tenant, serviceId, r);
    forall k | k in after && k.Service? ensures RecordIndexed(after, k.tenant, k.serviceId) {
      RemoveKeepsRecord(kvs, tenant, serviceId, r, k);
    }
    forall k | k in after && k.Index? ensures IndexOwned(after, k) {
      RemoveKeepsIndex(kvs, tenant, serviceId, r, k);
    }
    forall k | k in after && k.Alias? ensures AliasOwned(after, k) {
      RemoveKeepsAlias(kvs, tenant, serviceId, r, k);
    }
  }

  lemma RemoveKeepsRecord(kvs: Kvs, tenant: string, serviceId: string, r: ServiceRecord, k: Key)
    requires IndexConsistent(kvs) && HasRecord(kvs, tenant, serviceId)
    requires RemovalFits(kvs, tenant, serviceId, r)
    requires k in kvs && k.Service? && k != Service(tenant, serviceId)
    ensures RecordIndexed(Removed(kvs, tenant, serviceId, r), k.tenant, k.serviceId)
  {
    assert RecordIndexed(kvs, k.tenant, k.serviceId);
  }

  lemma RemoveKeepsIndex(kvs: Kvs, tenant: string, serviceId: string, r: ServiceRecord, k: Key)
    requires IndexConsistent(kvs) && HasRecord(kvs, tenant, serviceId)
    requires RemovalFits(kvs, tenant, serviceId, r)
    requires k in Removed(kvs, tenant, serviceId, r) && k.Index?
    ensures IndexOwned(Removed(kvs, tenant, serviceId, r), k)
  {
    assert IndexOwned(kvs, k);
  }

  lemma RemoveKeepsAlias(kvs: Kvs, tenant: string, serviceId: string, r: ServiceRecord, k: Key)
    requires IndexConsistent(kvs) && HasRecord(kvs, tenant, serviceId)
    requires RemovalFits(kvs, tenant, serviceId, r)
    requires k in Removed(kvs, tenant, serviceId, r) && k.Alias?
    ensures AliasOwned(Removed(kvs, tenant, serviceId, r), k)
  {
    assert AliasOwned(kvs, k);
  }

  function RegistrationDeletes(tenant: string, serviceId: string, r: ServiceRecord): seq<Op> {
    [Delete(IndexOf(tenant, r)), Delete(AliasOf(tenant, r)), Delete(Service(tenant, serviceId))]
  }

  function AttachmentDeletes(tenant: string, serviceId: string): seq<Op> {
    [DeletePrefix(Schemas, tenant, serviceId), DeletePrefix(Summaries, tenant, serviceId),
     DeletePrefix(Refs, tenant, serviceId), Delete(Tag(tenant, serviceId)),
     DeletePrefix(Instances, tenant, serviceId), DeletePrefix(Leases, tenant, serviceId)]
  }

  function UnregisterOps(tenant: string, serviceId: string, r: ServiceRecord): seq<Op> {
    RegistrationDeletes(tenant, serviceId, r) +
    [Put(DependencyQueue(tenant, serviceId, "0"), NoProviders(tenant, r), 0)] +
    AttachmentDeletes(tenant, serviceId)
  }

  lemma RegistrationDeleted(tenant: string, serviceId: string, r: ServiceRecord, k: Key)
    ensures Deleted(RegistrationDeletes(tenant, serviceId, r), k)
      <==> k == IndexOf(tenant, r) || k == AliasOf(tenant, r) || k == Service(tenant, serviceId)
  {
    var ops := RegistrationDeletes(tenant, serviceId, r);
    assert Deletes(ops[0], k) || Deletes(ops[1], k) || Deletes(ops[2], k) || !Deleted(ops, k);
  }

  lemma AttachmentsDeleted(tenant: string, serviceId: string, k: Key)
    ensures Deleted(AttachmentDeletes(tenant, serviceId), k) <==> k == Tag(tenant, serviceId) || Below(k, tenant, serviceId)
  {
    var ops := AttachmentDeletes(tenant, serviceId);
    assert Deletes(ops[0], k) || Deletes(ops[1], k) || Deletes(ops[2], k) || Deletes(ops[3], k) ||
           Deletes(ops[4], k) || Deletes(ops[5], k) || !Deleted(ops, k);
  }

  /** The ten operations of the transaction remove what belongs to the service and nothing else. */
  lemma UnregisterOpsRemove(kvs: Kvs, tenant: string, serviceId: string, r: ServiceRecord)
    ensures Apply(UnregisterOps(tenant, serviceId, r), kvs) == Removed(kvs, tenant, serviceId, r)
  {
    var xs, ys := RegistrationDeletes(tenant, serviceId, r), AttachmentDeletes(tenant, serviceId);
    var put := Put(DependencyQueue(tenant, serviceId, "0"), NoProviders(tenant, r), 0);
    ApplyConcat(xs + [put], ys, kvs);
    ApplyAppend(xs, put, kvs);
    var after, expected := Apply(UnregisterOps(tenant, serviceId, r), kvs), Removed(kvs, tenant, serviceId, r);
    forall k
      ensures k in after <==> k in expected
      ensures k in after ==> after[k] == expected[k]
    {
      ApplyDeletions(xs, kvs, k);
      ApplyDeletions(ys, Apply(xs + [put], kvs), k);
      RegistrationDeleted(tenant, serviceId, r, k);
      AttachmentsDeleted(tenant, serviceId, k);
    }
  }

  /** A removal takes no attached key of another service exactly when no stored one belongs to an id that
      continues this id behind a "/". */
  lemma RemovalSparesExact(kvs: Kvs, tenant: string, serviceId: string, r: ServiceRecord)
    ensures
      (forall k :: k in kvs && Attached(k) && !Own(k, tenant, serviceId) ==> k in Removed(kvs, tenant, serviceId, r))
      <==> forall k :: k in kvs && Attached(k) && k.tenant == tenant ==> !(serviceId + "/" <= k.serviceId)
  {
    forall k | k in kvs && Attached(k) && k.tenant == tenant && serviceId + "/" <= k.serviceId
      ensures !Own(k, tenant, serviceId) && k !in Removed(kvs, tenant, serviceId, r)
    {
      assert |k.serviceId| > |serviceId|;
    }
  }

  /** The lease numbers stored under the lease keys of a service. */
  function LeaseNumbers(kvs: Kvs, tenant: string, serviceId: string): set<nat> {
    set k | k in kvs && Covers(Leases, tenant, serviceId, k) && kvs[k].value.LeaseNumber? :: kvs[k].value.id
  }

  method UnregisterService(db: Backend, tenant: string, serviceId: string, force: bool, self: string, depended: bool)
    returns (r: UnregisterResult)
    modifies db
    ensures
      var read := old(db.Contents());
      if UnregisterCheck(read.kvs, read.kvs, tenant, serviceId, force, self, depended) != Unregistered then
        db.Contents() == read && r == UnregisterCheck(read.kvs, read.kvs, tenant, serviceId, force, self, depended)
      else
        var revoked := DropLeases(read, LeaseNumbers(read.kvs, tenant, serviceId));
        && db.Contents() ==
             revoked.(kvs := AfterUnregister(read.kvs, read.kvs, revoked.kvs, tenant, serviceId, force, self, depended))
        && r == if Service(tenant, serviceId) in revoked.kvs then Unregistered else NoService
  {
    if serviceId == self {
      return NotAllowed;
    }
    if !HasRecord(db.kvs, tenant, serviceId) {
      return NoService;
    }
    var service := RecordAt(db.kvs, tenant, serviceId);
    if !force {
      if depended {
        return Depended;
      }
      if exists k :: k in db.kvs && k.Instance? && k.tenant == tenant && Within(k.serviceId, serviceId) {
        return Deployed;
      }
    }
    RevokeAll(db, LeaseNumbers(db.kvs, tenant, serviceId));
    var ok := CommitUnregister(db, tenant, serviceId, service);
    return if ok then Unregistered else NoService;
  }

  method CommitUnregister(db: Backend, tenant: string, serviceId: string, service: ServiceRecord) returns (ok: bool)
    modifies db
    ensures ok == (Service(tenant, serviceId) in old(db.kvs)) && db.leases == old(db.leases)
    ensures db.kvs == if ok then Removed(old(db.kvs), tenant, serviceId, service) else old(db.kvs)
  {
    var key := Service(tenant, serviceId);
    var ops := [Delete(IndexOf(tenant, service)), Delete(AliasOf(tenant, service)), Delete(key)];
    ops := ops + [Put(DependencyQueue(tenant, serviceId, "0"), NoProviders(tenant, service), 0)];
    ops := ops + [DeletePrefix(Schemas, tenant, serviceId), DeletePrefix(Summaries, tenant, serviceId),
                  DeletePrefix(Refs, tenant, serviceId)];
    ops := ops + [Delete(Tag(tenant, serviceId))];
    ops := ops + [DeletePrefix(Instances, tenant, serviceId), DeletePrefix(Leases, tenant, serviceId)];
    assert ops == UnregisterOps(tenant, serviceId, service);
    assert LeasesAlive(ops, db.leases);
    UnregisterOpsRemove(db.kvs, tenant, serviceId, service);
    GuardedTxn(db.Contents(), ops, Exists(key));
    var resp := db.TxnWithCmp(ops, [Exists(key)], []);
    ok := resp.succeeded;
  }

  method RevokeAll(db: Backend, ids: set<nat>)
    modifies db
    ensures db.Contents() == DropLeases(old(db.Contents()), ids)
  {
    var todo := ids;
    while todo != {}
      invariant todo <= ids && db.Contents() == DropLeases(old(db.Contents()), ids - todo)
      decreases todo
    {
      var id :| id in todo;
      var _ := db.LeaseRevoke(id);
      todo := todo - {id};
      assert db.Contents() == DropLeases(old(db.Contents()), ids - todo) by {
        assert db.leases == old(db.leases) - (ids - todo);
      }
    }
    assert ids - todo == ids;
  }
}
