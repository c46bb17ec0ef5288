/** Instances and their leases: an instance key and a lease key are written together under one lease,
    and disappear together when the lease, the instance or the service goes. */
module Instances {
  import opened Etcd
  import opened Options
  import opened Services

  /** An instance has a live service, and a lease key that is bound to the same live lease and records its number. */
  predicate InstanceBound(s: State, k: Key)
    requires k in s.kvs && k.Instance?
  {
    var leaseKey := Lease(k.tenant, k.serviceId, k.instanceId);
    && Service(k.tenant, k.serviceId) in s.kvs
    && s.kvs[k].lease in s.leases
    && leaseKey in s.kvs
    && s.kvs[leaseKey] == Entry(LeaseNumber(s.kvs[k].lease), s.kvs[k].lease)
  }

  predicate InstancesBound(s: State) {
    forall k :: k in s.kvs && k.Instance? ==> InstanceBound(s, k)
  }

  predicate LeasesOwned(s: State) {
    forall k :: k in s.kvs && k.Lease? ==> Instance(k.tenant, k.serviceId, k.instanceId) in s.kvs
  }

  predicate InstanceConsistent(s: State) {
    0 !in s.leases && InstancesBound(s) && LeasesOwned(s) && OnlyInstancesLeased(s.kvs)
  }

  /** No two instances share a lease. */
  predicate Exclusive(kvs: Kvs) {
    forall k, m :: k in kvs && m in kvs && k.Instance? && m.Instance? && kvs[k].lease == kvs[m].lease ==> k == m
  }

  /** The invariant looks at instance and lease keys, and at which services exist. */
  lemma OnlyInstancesMatter(s: State, kvs: Kvs)
    requires InstanceConsistent(s) && OnlyInstancesLeased(kvs)
    requires forall k :: k in s.kvs && k.Service? ==> k in kvs
    requires forall k: Key :: k.Instance? || k.Lease? ==>
               (k in s.kvs <==> k in kvs) && (k in s.kvs ==> s.kvs[k] == kvs[k])
    ensures InstanceConsistent(s.(kvs := kvs))
  {
    var after := s.(kvs := kvs);
    forall k | k in kvs && k.Instance? ensures InstanceBound(after, k) {
      assert InstanceBound(s, k);
    }
    forall k | k in kvs && k.Lease? ensures Instance(k.tenant, k.serviceId, k.instanceId) in kvs {
      assert k in s.kvs;
    }
  }

  // ---------------------------------------------------------------- register

  function AfterRegisterInstance(s: State, tenant: string, serviceId: string, instanceId: string, data: string,
                                 lease: nat): State {
    if Service(tenant, serviceId) in s.kvs && lease in s.leases then
      s.(kvs := s.kvs[Instance(tenant, serviceId, instanceId) := Entry(Text(data), lease)]
                     [Lease(tenant, serviceId, instanceId) := Entry(LeaseNumber(lease), lease)])
    else s
  }

  /** A heartbeat succeeds when the lease key names a lease that is still alive. */
  predicate Heartbeats(s: State, tenant: string, serviceId: string, instanceId: string) {
    var k := Lease(tenant, serviceId, instanceId);
    k in s.kvs && s.kvs[k].value.LeaseNumber? && s.kvs[k].value.id in s.leases
  }

  /** In a consistent store the instances that can send a heartbeat are exactly those that are stored. */
  lemma HeartbeatExact(s: State, tenant: string, serviceId: string, instanceId: string)
    requires InstanceConsistent(s)
    ensures Heartbeats(s, tenant, serviceId, instanceId) <==> Instance(tenant, serviceId, instanceId) in s.kvs
  {
    var key := Instance(tenant, serviceId, instanceId);
    if key in s.kvs {
      assert InstanceBound(s, key);
    }
  }

  /** `granted` is the number the backend grants. The answer is the id of the instance, or none when the
      service does not exist. */
  method RegisterInstance(db: Backend, tenant: string, serviceId: string, instanceId: string, generated: string,
                          data: string, granted: nat) returns (r: Option<string>)
    requires granted != 0 && granted !in db.leases
    modifies db
    ensures
      var id := if instanceId == "" then generated else instanceId;
      if instanceId != "" && Heartbeats(old(db.Contents()), tenant, serviceId, instanceId) then
        db.Contents() == old(db.Contents()) && r == Some(instanceId)
      else
        && db.Contents() == AfterRegisterInstance(old(db.Contents()).(leases := old(db.leases) + {granted}),
                                                  tenant, serviceId, id, data, granted)
        && r == if Service(tenant, serviceId) in old(db.kvs) then Some(id) else None
    // registering a stored instance again changes nothing, registering any other one grants it a lease
    ensures InstanceConsistent(old(db.Contents())) && instanceId != "" ==>
      if Instance(tenant, serviceId, instanceId) in old(db.kvs)
      then db.Contents() == old(db.Contents()) && r == Some(instanceId)
      else db.leases == old(db.leases) + {granted} && (r.Some? <==> Service(tenant, serviceId) in old(db.kvs))
  {
    if InstanceConsistent(db.Contents()) {
      HeartbeatExact(db.Contents(), tenant, serviceId, instanceId);
    }
    var id := instanceId;
    if |instanceId| > 0 {
      var hbKey := Lease(tenant, serviceId, instanceId);
      if hbKey in db.kvs && db.kvs[hbKey].value.LeaseNumber? && db.kvs[hbKey].value.id in db.leases {
        return Some(instanceId);
      }
    } else {
      id := generated;
    }
    db.LeaseGrant(granted);
    var a := Put(Instance(tenant, serviceId, id), Text(data), granted);
    var b := Put(Lease(tenant, serviceId, id), LeaseNumber(granted), granted);
    ApplyAppend([], a, db.kvs);
    ApplyAppend([a], b, db.kvs);
    assert [] + [a] == [a] && [a] + [b] == [a, b];
    GuardedTxn(db.Contents(), [a, b], Exists(Service(tenant, serviceId)));
    var resp := db.TxnWithCmp([a, b], [Exists(Service(tenant, serviceId))], []);
    return if resp.Done? && resp.succeeded then Some(id) else None;
  }

  lemma RegisterInstanceKeeps(s: State, tenant: string, serviceId: string, instanceId: string, data: string, lease: nat)
    requires InstanceConsistent(s)
    ensures InstanceConsistent(AfterRegisterInstance(s, tenant, serviceId, instanceId, data, lease))
  {
    var after := AfterRegisterInstance(s, tenant, serviceId, instanceId, data, lease);
    forall k | k in after.kvs && k.Instance? ensures InstanceBound(after, k) {
      if k != Instance(tenant, serviceId, instanceId) {
        assert InstanceBound(s, k);
      }
    }
  }

  /** A registration under a live lease, for a service that exists, stores the instance data and the number of the
      lease, both attached to that lease, and changes no other key; any other one changes nothing. */
  lemma RegisterInstanceStores(s: State, tenant: string, serviceId: string, instanceId: string, data: string, lease: nat)
    ensures
      var after := AfterRegisterInstance(s, tenant, serviceId, instanceId, data, lease);
      var key, leaseKey := Instance(tenant, serviceId, instanceId), Lease(tenant, serviceId, instanceId);
      && after.leases == s.leases
      && if Service(tenant, serviceId) in s.kvs && lease in s.leases then
           && HasText(after.kvs, key, data) && after.kvs[key].lease == lease
           && LeaseIdOf(after.kvs, tenant, serviceId, instanceId) == Some(lease) && after.kvs[leaseKey].lease == lease
           && forall k :: k != key && k != leaseKey ==> Same(s.kvs, after.kvs, k)
         else after == s
  {
  }

  // ---------------------------------------------------------------- leases

  lemma GrantKeeps(s: State, id: nat)
    requires InstanceConsistent(s) && id != 0
    ensures InstanceConsistent(s.(leases := s.leases + {id}))
  {
    var after := s.(leases := s.leases + {id});
    forall k | k in after.kvs && k.Instance? ensures InstanceBound(after, k) {
      assert InstanceBound(s, k);
    }
  }

  /** An instance loses both of its keys to the same lease, so neither is left behind. */
  lemma DropLeaseKeeps(s: State, id: nat)
    requires InstanceConsistent(s) && id in s.leases
    ensures InstanceConsistent(DropLease(s, id))
  {
    var after := DropLease(s, id);
    forall k | k in after.kvs && k.Instance? ensures InstanceBound(after, k) {
      assert InstanceBound(s, k);
      assert Service(k.tenant, k.serviceId) in after.kvs;
    }
    forall k | k in after.kvs && k.Lease?
      ensures Instance(k.tenant, k.serviceId, k.instanceId) in after.kvs
    {
      assert InstanceBound(s, Instance(k.tenant, k.serviceId, k.instanceId));
    }
  }

  /** The lease an instance is registered with; a value that is no number reads as 0. */
  function LeaseIdOf(kvs: Kvs, tenant: string, serviceId: string, instanceId: string): Option<nat> {
    var k := Lease(tenant, serviceId, instanceId);
    if k !in kvs then None else Some(if kvs[k].value.LeaseNumber? then kvs[k].value.id else 0)
  }

  /** Unregistering an instance revokes its lease; it fails for an unknown instance or lease. */
  method UnregisterInstance(db: Backend, tenant: string, serviceId: string, instanceId: string) returns (ok: bool)
    modifies db
    ensures var id := LeaseIdOf(old(db.kvs), tenant, serviceId, instanceId);
      && ok == (id.Some? && id.value in old(db.leases))
      && db.Contents() == if ok then DropLease(old(db.Contents()), id.value) else old(db.Contents())
  {
    var leaseId := LeaseIdOf(db.kvs, tenant, serviceId, instanceId);
    if leaseId.None? {
      return false;
    }
    ok := db.LeaseRevoke(leaseId.value);
  }

  /** In a consistent store an unregistration finds the lease of every instance and of nothing else, leaves a
      consistent store, and takes the two keys of that instance alone exactly when no other shares its lease. */
  lemma UnregisterInstanceExact(s: State, key: Key)
    requires InstanceConsistent(s) && key.Instance?
    ensures var id := LeaseIdOf(s.kvs, key.tenant, key.serviceId, key.instanceId);
      && (id.Some? <==> key in s.kvs)
      && (id.Some? ==>
            && id.value in s.leases
            && InstanceConsistent(DropLease(s, id.value))
            && (DropLease(s, id.value).kvs == s.kvs - {key, Lease(key.tenant, key.serviceId, key.instanceId)} <==>
                  forall k :: k in s.kvs && k.Instance? && s.kvs[k].lease == id.value ==> k == key))
  {
    if key in s.kvs {
      assert InstanceBound(s, key);
      DropLeaseKeeps(s, s.kvs[key].lease);
      RevokeTakesOnlyOne(s, key);
    }
  }

  lemma RevokeTakesOnlyOne(s: State, key: Key)
    requires InstanceConsistent(s) && key in s.kvs && key.Instance?
    ensures DropLease(s, s.kvs[key].lease).kvs == s.kvs - {key, Lease(key.tenant, key.serviceId, key.instanceId)}
      <==> forall k :: k in s.kvs && k.Instance? && s.kvs[k].lease == s.kvs[key].lease ==> k == key
  {
    var id, leaseKey := s.kvs[key].lease, Lease(key.tenant, key.serviceId, key.instanceId);
    assert InstanceBound(s, key);
    var after, expected := DropLease(s, id).kvs, s.kvs - {key, leaseKey};
    if forall k :: k in s.kvs && k.Instance? && s.kvs[k].lease == id ==> k == key {
      forall k | k in s.kvs && s.kvs[k].lease == id ensures k == key || k == leaseKey {
        LeaseFollowsInstance(s, k);
      }
    } else {
      var k :| k in s.kvs && k.Instance? && s.kvs[k].lease == id && k != key;
      assert k in expected && k !in after;
    }
  }

  /** Every key attached to a lease is an instance or the lease key of an instance attached to it. */
  lemma LeaseFollowsInstance(s: State, k: Key)
    requires InstanceConsistent(s) && k in s.kvs && s.kvs[k].lease != 0
    ensures k.Instance? || (k.Lease? && var i := Instance(k.tenant, k.serviceId, k.instanceId);
                                        i in s.kvs && s.kvs[i].lease == s.kvs[k].lease)
  {
    if k.Lease? {
      assert InstanceBound(s, Instance(k.tenant, k.serviceId, k.instanceId));
    }
  }

  // ---------------------------------------------------------------- service removal

  lemma RemovedKeepsInstances(s: State, tenant: string, serviceId: string, r: ServiceRecord)
    requires InstanceConsistent(s)
    ensures InstanceConsistent(s.(kvs := Removed(s.kvs, tenant, serviceId, r)))
  {
    var after := s.(kvs := Removed(s.kvs, tenant, serviceId, r));
    forall k | k in after.kvs && k.Instance? ensures InstanceBound(after, k) {
      RemovedKeepsBound(s, tenant, serviceId, r, k);
    }
    forall k | k in after.kvs && k.Lease?
      ensures Instance(k.tenant, k.serviceId, k.instanceId) in after.kvs
    {
      assert k in s.kvs;
    }
  }

  lemma RemovedKeepsBound(s: State, tenant: string, serviceId: string, r: ServiceRecord, k: Key)
    requires InstancesBound(s) && k in Removed(s.kvs, tenant, serviceId, r) && k.Instance?
    ensures InstanceBound(s.(kvs := Removed(s.kvs, tenant, serviceId, r)), k)
  {
    assert k in s.kvs && InstanceBound(s, k);
  }

  /** Revoking the leases of a service before removing it changes nothing that the removal would keep. */
  lemma RevokeBeforeRemove(s: State, tenant: string, serviceId: string, r: ServiceRecord)
    requires InstanceConsistent(s) && Exclusive(s.kvs)
    ensures var revoked := DropLeases(s, LeaseNumbers(s.kvs, tenant, serviceId));
      && (Service(tenant, serviceId) in revoked.kvs <==> Service(tenant, serviceId) in s.kvs)
      && Removed(revoked.kvs, tenant, serviceId, r) == Removed(s.kvs, tenant, serviceId, r)
  {
    forall k | k in s.kvs && s.kvs[k].lease in LeaseNumbers(s.kvs, tenant, serviceId) ensures Below(k, tenant, serviceId) {
      RevokedIsBelow(s, tenant, serviceId, k);
    }
  }

  lemma RevokedIsBelow(s: State, tenant: string, serviceId: string, k: Key)
    requires InstanceConsistent(s) && Exclusive(s.kvs)
    requires k in s.kvs && s.kvs[k].lease in LeaseNumbers(s.kvs, tenant, serviceId)
    ensures Below(k, tenant, serviceId)
  {
    var m :| m in s.kvs && Covers(Leases, tenant, serviceId, m) && s.kvs[m].value.LeaseNumber? &&
             s.kvs[m].value.id == s.kvs[k].lease;
    assert InstanceBound(s, Instance(m.tenant, m.serviceId, m.instanceId));
    if k.Lease? {
      assert InstanceBound(s, Instance(k.tenant, k.serviceId, k.instanceId));
    }
  }

  /** The revocations before the removal end the leases of the instances that the prefix of the service finds, and of
      no other instance. */
  lemma RemovalRevokesExact(s: State, tenant: string, serviceId: string, k: Key)
    requires InstanceConsistent(s) && Exclusive(s.kvs) && k in s.kvs && k.Instance?
    ensures s.kvs[k].lease in DropLeases(s, LeaseNumbers(s.kvs, tenant, serviceId)).leases
      <==> !Covers(Family.Instances, tenant, serviceId, k)
  {
    var ids, leaseKey := LeaseNumbers(s.kvs, tenant, serviceId), Lease(k.tenant, k.serviceId, k.instanceId);
    assert InstanceBound(s, k);
    if Covers(Family.Instances, tenant, serviceId, k) {
      assert Covers(Family.Leases, tenant, serviceId, leaseKey) && s.kvs[leaseKey].value.id in ids;
    } else {
      forall m | m in s.kvs && Covers(Family.Leases, tenant, serviceId, m) && s.kvs[m].value.LeaseNumber?
        ensures s.kvs[m].value.id != s.kvs[k].lease
      {
        assert InstanceBound(s, Instance(m.tenant, m.serviceId, m.instanceId));
      }
    }
  }

  // ---------------------------------------------------------------- update in place

  /** An update commits when it found a lease number, the service exists and that lease is alive; 0 is no lease. */
  predicate Updates(read: Kvs, now: State, tenant: string, serviceId: string, instanceId: string) {
    var lease := LeaseIdOf(read, tenant, serviceId, instanceId);
    lease.Some? && Service(tenant, serviceId) in now.kvs && (lease.value == 0 || lease.value in now.leases)
  }

  /** An update reads the lease number first and re-attaches the instance to it later. */
  function AfterUpdateInstance(read: Kvs, now: State, tenant: string, serviceId: string, instanceId: string,
                               data: string): State {
    if Updates(read, now, tenant, serviceId, instanceId)
    then now.(kvs := now.kvs[Instance(tenant, serviceId, instanceId) :=
                               Entry(Text(data), LeaseIdOf(read, tenant, serviceId, instanceId).value)])
    else now
  }

  method UpdateInstance(db: Backend, tenant: string, serviceId: string, instanceId: string, data: string)
    returns (ok: bool)
    modifies db
    ensures db.Contents() == AfterUpdateInstance(old(db.kvs), old(db.Contents()), tenant, serviceId, instanceId, data)
    ensures ok == Updates(old(db.kvs), old(db.Contents()), tenant, serviceId, instanceId)
  {
    var leaseId := LeaseIdOf(db.kvs, tenant, serviceId, instanceId);
    if leaseId.None? {
      return false;
    }
    var op := Put(Instance(tenant, serviceId, instanceId), Text(data), leaseId.value);
    ApplyAppend([], op, db.kvs);
    assert [] + [op] == [op];
    GuardedTxn(db.Contents(), [op], Exists(Service(tenant, serviceId)));
    var resp := db.TxnWithCmp([op], [Exists(Service(tenant, serviceId))], []);
    return resp.Done? && resp.succeeded;
  }

  /** An update that commits stores the new data under the instance key, attached to the lease that was read, and
      changes no other key, the lease key included. */
  lemma UpdateInstanceStores(read: Kvs, now: State, tenant: string, serviceId: string, instanceId: string, data: string)
    ensures
      var after := AfterUpdateInstance(read, now, tenant, serviceId, instanceId, data);
      var key := Instance(tenant, serviceId, instanceId);
      && after.leases == now.leases
      && if Updates(read, now, tenant, serviceId, instanceId) then
           && HasText(after.kvs, key, data) && Some(after.kvs[key].lease) == LeaseIdOf(read, tenant, serviceId, instanceId)
           && forall k :: k != key ==> Same(now.kvs, after.kvs, k)
         else after == now
  {
  }

  /** In a consistent store an update on current reads commits exactly for the stored instances. */
  lemma UpdatesExact(s: State, tenant: string, serviceId: string, instanceId: string)
    requires InstanceConsistent(s)
    ensures Updates(s.kvs, s, tenant, serviceId, instanceId) <==> Instance(tenant, serviceId, instanceId) in s.kvs
  {
    if Instance(tenant, serviceId, instanceId) in s.kvs {
      assert InstanceBound(s, Instance(tenant, serviceId, instanceId));
    }
  }

  /** The lease number the update read is still the stored one. */
  predicate UpdateFits(read: Kvs, now: State, tenant: string, serviceId: string, instanceId: string) {
    Updates(read, now, tenant, serviceId, instanceId) ==>
      var leaseKey := Lease(tenant, serviceId, instanceId);
      leaseKey in now.kvs && now.kvs[leaseKey].value == read[leaseKey].value
  }

  /** An update keeps instance and lease key bound exactly when it does not commit, or the lease number it
      read is still the one the lease key is bound to. */
  lemma UpdateInstanceExact(read: Kvs, now: State, tenant: string, serviceId: string, instanceId: string, data: string)
    requires InstanceConsistent(now)
    ensures InstanceConsistent(AfterUpdateInstance(read, now, tenant, serviceId, instanceId, data))
      <==> UpdateFits(read, now, tenant, serviceId, instanceId)
  {
    if Updates(read, now, tenant, serviceId, instanceId) {
      var key := Instance(tenant, serviceId, instanceId);
      var after := AfterUpdateInstance(read, now, tenant, serviceId, instanceId, data);
      if UpdateFits(read, now, tenant, serviceId, instanceId) {
        assert InstanceBound(now, key);
        forall k | k in after.kvs && k.Instance? ensures InstanceBound(after, k) {
          if k != key {
            assert InstanceBound(now, k);
          }
        }
      } else {
        assert key in after.kvs && !InstanceBound(after, key);
      }
    }
  }
}
