/** Instances, leases and services over every run. */
module InstanceRuns {
  import opened Etcd
  import opened Services
  import opened Instances
  import opened Runs

  /** A step keeps instances, leases and services in agreement, except an instance update that commits with
      a lease number which is no longer the stored one. */
  predicate InstanceFits(read: Reads, now: State, a: Action) {
    a.ChangeInstance? ==> UpdateFits(read.first.kvs, now, a.tenant, a.serviceId, a.instanceId)
  }

  lemma SchemaStepKeepsInstances(read: Reads, now: State, a: Action)
    requires InstanceConsistent(now) && SchemaStep(a)
    ensures InstanceConsistent(Commit(read, now, a))
  {
    var after := Commit(read, now, a);
    forall k: Key
      ensures k.Service? && k in now.kvs ==> k in after.kvs
      ensures k.Instance? || k.Lease? ==> Same(now.kvs, after.kvs, k)
      ensures NoLease(now.kvs, after.kvs, k)
    {
      SchemaStepFrame(read, now, a, k);
    }
    OnlyInstancesMatter(now, after.kvs);
  }

  lemma ServiceStepKeepsInstances(read: Reads, now: State, a: Action)
    requires InstanceConsistent(now) && (a.AddService? || a.SetProperties? || a.RemoveService?)
    ensures InstanceConsistent(Commit(read, now, a))
  {
    match a
    case AddService(t, req, generated) => OnlyInstancesMatter(now, AfterRegister(now.kvs, t, req, generated));
    case SetProperties(t, s, properties) =>
      OnlyInstancesMatter(now, AfterProperties(read.first.kvs, now.kvs, t, s, properties));
    case RemoveService(t, s, force, self, depended) =>
      if HasRecord(read.first.kvs, t, s) {
        RemovedKeepsInstances(now, t, s, RecordAt(read.first.kvs, t, s));
      }
  }

  lemma LeaseStepKeepsInstances(now: State, a: Action)
    requires InstanceConsistent(now) && (a.AddInstance? || a.GrantLease? || a.LoseLease?)
    ensures InstanceConsistent(Commit(Reads(now, now), now, a))
  {
    match a
    case AddInstance(t, s, i, data, lease) => RegisterInstanceKeeps(now, t, s, i, data, lease);
    case GrantLease(lease) =>
      if lease != 0 {
        GrantKeeps(now, lease);
      }
    case LoseLease(lease) =>
      if lease in now.leases {
        DropLeaseKeeps(now, lease);
      }
  }

  lemma StepInstancesExact(read: Reads, now: State, a: Action)
    requires InstanceConsistent(now)
    ensures InstanceConsistent(Commit(read, now, a)) <==> InstanceFits(read, now, a)
  {
    if SchemaStep(a) {
      SchemaStepKeepsInstances(read, now, a);
    } else if a.AddService? || a.SetProperties? || a.RemoveService? {
      ServiceStepKeepsInstances(read, now, a);
    } else if a.ChangeInstance? {
      UpdateInstanceExact(read.first.kvs, now, a.tenant, a.serviceId, a.instanceId, a.data);
    } else {
      LeaseStepKeepsInstances(now, a);
    }
  }

  /** In every interleaving of all operations, every instance has a live service and a lease key bound to the same
      live lease, and no lease key is without its instance, exactly when every instance update that commits
      finds the lease number it read still stored. */
  lemma InstancesInEveryRun(states: seq<State>, events: seq<Event>, n: nat)
    requires IsRun(states, events) && n < |states|
    ensures AllStates(states, n, InstanceConsistent) <==> AllSteps(states, events, n, InstanceFits)
  {
    forall i | 0 <= i < n ensures StepExact(states, events, i, InstanceConsistent, InstanceFits) {
      if InstanceConsistent(states[i]) {
        StepInstancesExact(ReadsOf(states, events[i]), states[i], events[i].action);
      }
    }
    RunExact(states, events, n, InstanceConsistent, InstanceFits);
  }

  /** A current read always fits, so a run whose instance updates read the state they commit on is consistent,
      however old all other reads are. */
  lemma CurrentUpdatesKeepInstances(states: seq<State>, events: seq<Event>, n: nat)
    requires IsRun(states, events) && n < |states|
    requires forall i :: 0 <= i < |events| && events[i].action.ChangeInstance? ==> events[i].readAt == i
    ensures InstanceConsistent(states[n])
  {
    InstancesInEveryRun(states, events, n);
    assert AllSteps(states, events, n, InstanceFits);
  }

  // ---------------------------------------------------------------- one lease per instance

  /** The leases that the registrations of one instance have used so far. */
  ghost function UsedBy(events: seq<Event>, k: Key): set<nat> {
    set e | e in events && e.action.AddInstance? && k == Instance(e.action.tenant, e.action.serviceId, e.action.instanceId) ::
      e.action.lease
  }

  /** Every registration uses a lease that no earlier one has used. */
  ghost predicate LeasesUsedOnce(events: seq<Event>) {
    forall i, j :: 0 <= i < j < |events| && events[i].action.AddInstance? && events[j].action.AddInstance? ==>
      events[i].action.lease != events[j].action.lease
  }

  function InstanceOf(k: Key): Key
    requires k.Lease?
  {
    Instance(k.tenant, k.serviceId, k.instanceId)
  }

  /** Instances are attached to leases of their own registrations, and lease keys record such leases. */
  ghost predicate Traced(kvs: Kvs, events: seq<Event>) {
    && (forall k :: k in kvs && k.Instance? ==> kvs[k].lease in UsedBy(events, k))
    && (forall k :: k in kvs && k.Lease? ==> kvs[k].value.LeaseNumber? && kvs[k].value.id in UsedBy(events, InstanceOf(k)))
  }

  lemma UsedByGrows(events: seq<Event>, n: nat, m: nat, k: Key)
    requires n <= m <= |events|
    ensures UsedBy(events[..n], k) <= UsedBy(events[..m], k)
  {
    assert forall e :: e in events[..n] ==> e in events[..m] by {
      assert events[..n] == events[..m][..n];
    }
  }

  /** Where the lease of an instance comes from in one step. */
  lemma StepInstance(read: Reads, now: State, a: Action, k: Key)
    requires k in Commit(read, now, a).kvs && k.Instance?
    ensures var lease := Commit(read, now, a).kvs[k].lease;
      || (a.AddInstance? && k == Instance(a.tenant, a.serviceId, a.instanceId) && lease == a.lease)
      || (var l := Lease(k.tenant, k.serviceId, k.instanceId);
          l in read.first.kvs && (read.first.kvs[l].value.LeaseNumber? ==> read.first.kvs[l].value.id == lease))
      || (k in now.kvs && lease == now.kvs[k].lease)
  {
    if SchemaStep(a) {
      SchemaStepFrame(read, now, a, k);
    }
  }

  lemma StepLease(read: Reads, now: State, a: Action, k: Key)
    requires k in Commit(read, now, a).kvs && k.Lease?
    ensures
      || (a.AddInstance? && InstanceOf(k) == Instance(a.tenant, a.serviceId, a.instanceId) &&
          Commit(read, now, a).kvs[k].value == LeaseNumber(a.lease))
      || (k in now.kvs && Commit(read, now, a).kvs[k].value == now.kvs[k].value)
  {
    if SchemaStep(a) {
      SchemaStepFrame(read, now, a, k);
    }
  }

  lemma {:induction false} TracedInEveryRun(states: seq<State>, events: seq<Event>, n: nat)
    requires IsRun(states, events) && n < |states|
    ensures forall m :: 0 <= m <= n ==> Traced(states[m].kvs, events[..m])
  {
    if n > 0 {
      TracedInEveryRun(states, events, n - 1);
      var e := events[n - 1];
      var read, now, after := ReadsOf(states, e), states[n - 1], states[n];
      assert after == Commit(read, now, e.action);
      assert e in events[..n];
      assert Traced(states[e.readAt].kvs, events[..e.readAt]) && Traced(now.kvs, events[..n - 1]);
      forall k | k in after.kvs && k.Instance? ensures after.kvs[k].lease in UsedBy(events[..n], k) {
        StepInstance(read, now, e.action, k);
        UsedByGrows(events, e.readAt, n, k);
        UsedByGrows(events, n - 1, n, k);
        assert InstanceOf(Lease(k.tenant, k.serviceId, k.instanceId)) == k;
      }
      forall k | k in after.kvs && k.Lease?
        ensures after.kvs[k].value.LeaseNumber? && after.kvs[k].value.id in UsedBy(events[..n], InstanceOf(k))
      {
        StepLease(read, now, e.action, k);
        UsedByGrows(events, n - 1, n, InstanceOf(k));
      }
    }
  }

  /** When every registration uses a lease of its own, no two instances ever share one, in any interleaving and
      with reads of any age, so unregistering an instance takes no other instance along. */
  lemma ExclusiveInEveryRun(states: seq<State>, events: seq<Event>, n: nat)
    requires IsRun(states, events) && n < |states| && LeasesUsedOnce(events)
    ensures Exclusive(states[n].kvs)
  {
    TracedInEveryRun(states, events, n);
    var kvs := states[n].kvs;
    forall k, m | k in kvs && m in kvs && k.Instance? && m.Instance? && kvs[k].lease == kvs[m].lease ensures k == m {
      OneOwner(events[..n], k, m, kvs[k].lease);
    }
  }

  lemma OneOwner(events: seq<Event>, k: Key, m: Key, lease: nat)
    requires LeasesUsedOnce(events) && lease in UsedBy(events, k) && lease in UsedBy(events, m)
    ensures k == m
  {
    var e :| e in events && e.action.AddInstance? && e.action.lease == lease &&
             k == Instance(e.action.tenant, e.action.serviceId, e.action.instanceId);
    var f :| f in events && f.action.AddInstance? && f.action.lease == lease &&
             m == Instance(f.action.tenant, f.action.serviceId, f.action.instanceId);
    var i :| 0 <= i < |events| && events[i] == e;
    var j :| 0 <= j < |events| && events[j] == f;
    assert i == j;
  }
}
