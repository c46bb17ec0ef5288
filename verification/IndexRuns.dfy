/** Service records, index entries and alias entries over every run. */
module IndexRuns {
  import opened Etcd
  import opened Services
  import opened Instances
  import opened Runs
  import SS = SchemaStore
  import SD = SchemaDiff

  predicate Indexed(s: State) {
    IndexConsistent(s.kvs)
  }

  /** The record that was read is still the stored one, as far as the index is concerned. */
  predicate StillThere(read: Kvs, now: Kvs, tenant: string, serviceId: string) {
    HasRecord(read, tenant, serviceId) ==>
      HasRecord(now, tenant, serviceId) && SameIdentity(RecordAt(read, tenant, serviceId), RecordAt(now, tenant, serviceId))
  }

  predicate ModifyCommits(read: Kvs, listed: Kvs, now: Kvs, t: string, s: string, docs: seq<SD.Doc>, quota: bool) {
    HasRecord(read, t, s) && Service(t, s) in now && !SD.QuotaRefuses(listed, t, s, docs, quota)
  }

  /** When a step keeps the index: what it writes back or removes on the word of an earlier read must still be
      what is stored. */
  predicate IndexFits(read: Reads, now: State, a: Action) {
    match a
    case SetProperties(t, s, _) => Service(t, s) in now.kvs ==> StillThere(read.first.kvs, now.kvs, t, s)
    case RemoveService(t, s, force, self, depended) =>
      UnregisterCheck(read.first.kvs, read.second.kvs, t, s, force, self, depended).Unregistered? && Service(t, s) in now.kvs ==>
        HasRecord(now.kvs, t, s) && RemovalFits(now.kvs, t, s, RecordAt(read.first.kvs, t, s))
    case PutSchema(t, s, x, _) =>
      HasRecord(read.first.kvs, t, s) && x !in RecordAt(read.first.kvs, t, s).schemas ==> StillThere(read.first.kvs, now.kvs, t, s)
    case PutSchemas(t, s, ids, contents) => |ids| == |contents| ==> StillThere(read.first.kvs, now.kvs, t, s)
    case ModifySchemas(t, s, docs, quota) =>
      ModifyCommits(read.first.kvs, read.second.kvs, now.kvs, t, s, docs, quota) ==> StillThere(read.first.kvs, now.kvs, t, s)
    case _ => true
  }

  // ---------------------------------------------------------------- the steps

  lemma SameIndexAs(kvs: Kvs, after: Kvs)
    requires OnlyInstancesLeased(kvs) && OnlyInstancesLeased(after)
    requires forall k: Key :: k.Service? || k.Index? || k.Alias? ==>
               (k in kvs <==> k in after) && (k in kvs ==> kvs[k].value == after[k].value)
    ensures IndexConsistent(after) <==> IndexConsistent(kvs)
  {
    if IndexConsistent(kvs) {
      OtherKeysDoNotMatter(kvs, after);
    }
    if IndexConsistent(after) {
      OtherKeysDoNotMatter(after, kvs);
    }
  }

  lemma PropertiesExact(read: Kvs, now: Kvs, t: string, s: string, properties: map<string, string>)
    requires IndexConsistent(now)
    ensures IndexConsistent(AfterProperties(read, now, t, s, properties))
      <==> (Service(t, s) in now ==> StillThere(read, now, t, s))
  {
    if HasRecord(read, t, s) && Service(t, s) in now {
      RewriteExact(now, t, s, RecordAt(read, t, s).(properties := properties));
    }
  }

  lemma UnregisterExact(read: Reads, now: State, a: Action)
    requires IndexConsistent(now.kvs) && a.RemoveService?
    ensures Indexed(Commit(read, now, a)) <==> IndexFits(read, now, a)
  {
    var t, s := a.tenant, a.serviceId;
    if UnregisterCheck(read.first.kvs, read.second.kvs, t, s, a.force, a.self, a.depended).Unregistered? &&
       Service(t, s) in now.kvs {
      assert RecordIndexed(now.kvs, t, s);
      RemoveExact(now.kvs, t, s, RecordAt(read.first.kvs, t, s));
    }
  }

  /** A schema write whose id is new to the record it read keeps the index intact exactly when that record
      is still there: its transaction does not check that the service exists. */
  lemma SchemaWriteExact(read: Kvs, now: Kvs, t: string, s: string, x: string, c: SS.Content)
    requires IndexConsistent(now)
    ensures IndexConsistent(SS.AfterPutContent(read, now, t, s, x, c))
      <==> (HasRecord(read, t, s) && x !in RecordAt(read, t, s).schemas ==> StillThere(read, now, t, s))
  {
    if HasRecord(read, t, s) {
      var r, after := RecordAt(read, t, s), SS.AfterPutContent(read, now, t, s, x, c);
      var longer := r.(schemas := r.schemas + [x]);
      var rewritten := if x in r.schemas then now else now[Service(t, s) := Entry(Record(longer), 0)];
      if x !in r.schemas {
        RewriteExact(now, t, s, longer);
      }
      SameIndexAs(rewritten, after);
    }
  }

  /** The same holds of replacing all schemas, which checks nothing at all. */
  lemma SchemaReplaceExact(read: Kvs, now: Kvs, t: string, s: string, ids: seq<string>, contents: seq<SS.Content>)
    requires IndexConsistent(now)
    ensures IndexConsistent(SS.AfterPutMany(read, now, t, s, ids, contents))
      <==> (|ids| == |contents| ==> StillThere(read, now, t, s))
  {
    if HasRecord(read, t, s) && |ids| == |contents| {
      var written := RecordAt(read, t, s).(schemas := ids);
      var rewritten, after := now[Service(t, s) := Entry(Record(written), 0)], SS.AfterPutMany(read, now, t, s, ids, contents);
      RewriteExact(now, t, s, written);
      forall k: Key
        ensures k.Service? || k.Index? || k.Alias? ==>
          (k in rewritten <==> k in after) && (k in rewritten ==> rewritten[k].value == after[k].value)
        ensures k in after && after[k].lease != 0 ==> k.Instance? || k.Lease?
      {
        PutSchemasFrame(read, now, t, s, ids, contents, k);
      }
      SameIndexAs(rewritten, after);
    }
  }

  lemma ModifyExact(read: Kvs, listed: Kvs, now: Kvs, t: string, s: string, docs: seq<SD.Doc>, quota: bool)
    requires IndexConsistent(now)
    ensures IndexConsistent(SD.AfterModify(read, listed, now, t, s, docs, quota))
      <==> (ModifyCommits(read, listed, now, t, s, docs, quota) ==> StillThere(read, now, t, s))
  {
    if ModifyCommits(read, listed, now, t, s, docs, quota) {
      var ids := SD.IdList(SD.Written(listed, t, s, docs));
      var written := RecordAt(read, t, s).(schemas := ids);
      var rewritten, after := now[Service(t, s) := Entry(Record(written), 0)], SD.AfterModify(read, listed, now, t, s, docs, quota);
      RewriteExact(now, t, s, written);
      forall k: Key
        ensures k.Service? || k.Index? || k.Alias? ==>
          (k in rewritten <==> k in after) && (k in rewritten ==> rewritten[k].value == after[k].value)
        ensures k in after && after[k].lease != 0 ==> k.Instance? || k.Lease?
      {
        ModifyFrame(read, listed, now, t, s, docs, quota, k);
      }
      SameIndexAs(rewritten, after);
    }
  }

  lemma DropKeepsIndex(now: Kvs, gone: set<Key>)
    requires IndexConsistent(now) && forall k :: k in gone ==> SS.SchemaKey(k)
    ensures IndexConsistent(now - gone)
  {
    OtherKeysDoNotMatter(now, now - gone);
  }

  lemma DropStepKeepsIndex(read: Reads, now: State, a: Action)
    requires IndexConsistent(now.kvs) && (a.DropRef? || a.DropContent? || a.CollectContents?)
    ensures Indexed(Commit(read, now, a))
  {
    if a.DropRef? {
      DropKeepsIndex(now.kvs, {SchemaRef(a.tenant, a.serviceId, a.schemaId), SchemaSummary(a.tenant, a.serviceId, a.schemaId)});
    } else if a.DropContent? {
      DropKeepsIndex(now.kvs, {SchemaContent(a.tenant, a.hash)});
    } else {
      DropKeepsIndex(now.kvs, SS.Garbage(read.first.kvs, read.second.kvs));
    }
  }

  lemma SchemaStepIndexExact(read: Reads, now: State, a: Action)
    requires IndexConsistent(now.kvs) && SchemaStep(a)
    ensures Indexed(Commit(read, now, a)) <==> IndexFits(read, now, a)
  {
    match a
    case PutSchema(t, s, x, c) => SchemaWriteExact(read.first.kvs, now.kvs, t, s, x, c);
    case PutSchemas(t, s, ids, contents) => SchemaReplaceExact(read.first.kvs, now.kvs, t, s, ids, contents);
    case ModifySchemas(t, s, docs, quota) => ModifyExact(read.first.kvs, read.second.kvs, now.kvs, t, s, docs, quota);
    case _ => DropStepKeepsIndex(read, now, a);
  }

  lemma InstanceStepKeepsIndex(read: Reads, now: State, a: Action)
    requires IndexConsistent(now.kvs) && 0 !in now.leases
    requires a.AddInstance? || a.ChangeInstance? || a.GrantLease? || a.LoseLease?
    ensures Indexed(Commit(read, now, a))
  {
    OtherKeysDoNotMatter(now.kvs, Commit(read, now, a).kvs);
  }

  lemma StepIndexExact(read: Reads, now: State, a: Action)
    requires IndexConsistent(now.kvs) && 0 !in now.leases
    ensures Indexed(Commit(read, now, a)) <==> IndexFits(read, now, a)
  {
    if SchemaStep(a) {
      SchemaStepIndexExact(read, now, a);
    } else if a.AddService? {
      RegisteredIsLive(now.kvs, a.tenant, a.req, a.generated);
    } else if a.SetProperties? {
      PropertiesExact(read.first.kvs, now.kvs, a.tenant, a.serviceId, a.properties);
    } else if a.RemoveService? {
      UnregisterExact(read, now, a);
    } else {
      InstanceStepKeepsIndex(read, now, a);
    }
  }

  // ---------------------------------------------------------------- runs

  /** In every interleaving of all thirteen kinds of step, records, index entries and alias entries agree in both
      directions exactly when every step that writes back or removes a record finds the one it read still there. */
  lemma IndexInEveryRun(states: seq<State>, events: seq<Event>, n: nat)
    requires IsRun(states, events) && n < |states|
    ensures AllStates(states, n, Indexed) <==> AllSteps(states, events, n, IndexFits)
  {
    forall i | 0 <= i < n ensures StepExact(states, events, i, Indexed, IndexFits) {
      LeasesInEveryRun(states, events, i);
      if Indexed(states[i]) {
        StepIndexExact(ReadsOf(states, events[i]), states[i], events[i].action);
      }
    }
    RunExact(states, events, n, Indexed, IndexFits);
  }

  lemma CurrentFits(now: State, a: Action)
    requires Indexed(now)
    ensures IndexFits(Reads(now, now), now, a)
  {
    if a.RemoveService? && Service(a.tenant, a.serviceId) in now.kvs {
      assert RecordIndexed(now.kvs, a.tenant, a.serviceId);
    }
  }

  lemma CurrentStepKeepsIndex(states: seq<State>, events: seq<Event>, i: nat)
    requires IsRun(states, events) && IsAtomic(events) && i < |events| && Indexed(states[i])
    ensures Indexed(states[i + 1])
  {
    var now, a := states[i], events[i].action;
    LeasesInEveryRun(states, events, i);
    CurrentFits(now, a);
    StepIndexExact(Reads(now, now), now, a);
    assert states[i + 1] == Commit(Reads(now, now), now, a);
  }

  /** A current read always fits, so the index is intact in every atomic run. */
  lemma {:induction false} IndexInEveryAtomicRun(states: seq<State>, events: seq<Event>, n: nat)
    requires IsRun(states, events) && IsAtomic(events) && n < |states|
    ensures Indexed(states[n])
  {
    if n > 0 {
      IndexInEveryAtomicRun(states, events, n - 1);
      CurrentStepKeepsIndex(states, events, n - 1);
    }
  }

  // ---------------------------------------------------------------- ids that stand for one service

  /** `who` fixes the index fields that a service id stands for. */
  ghost predicate Faithful(kvs: Kvs, who: (string, string) -> ServiceRecord) {
    forall k :: k in kvs && k.Service? && kvs[k].value.Record? ==>
      SameIdentity(kvs[k].value.service, who(k.tenant, k.serviceId))
  }

  ghost predicate FaithfulRequests(events: seq<Event>, who: (string, string) -> ServiceRecord) {
    forall i :: 0 <= i < |events| && events[i].action.AddService? ==>
      var a := events[i].action;
      SameIdentity(a.req, who(a.tenant, WithId(a.req, a.generated).serviceId))
  }

  /** Where a stored record comes from: a registration, an earlier read, or the store itself. */
  lemma StepRecords(read: Reads, now: State, a: Action, k: Key)
    requires k.Service? && k in Commit(read, now, a).kvs && Commit(read, now, a).kvs[k].value.Record?
    ensures var r := Commit(read, now, a).kvs[k].value.service;
      || (a.AddService? && k == Service(a.tenant, WithId(a.req, a.generated).serviceId) && SameIdentity(r, a.req))
      || (HasRecord(read.first.kvs, k.tenant, k.serviceId) && SameIdentity(r, RecordAt(read.first.kvs, k.tenant, k.serviceId)))
      || (k in now.kvs && now.kvs[k].value == Record(r))
  {
    match a
    case PutSchemas(t, s, ids, contents) => PutSchemasFrame(read.first.kvs, now.kvs, t, s, ids, contents, k);
    case ModifySchemas(t, s, docs, quota) => ModifyFrame(read.first.kvs, read.second.kvs, now.kvs, t, s, docs, quota, k);
    case _ =>
  }

  lemma {:induction false} FaithfulInEveryRun(states: seq<State>, events: seq<Event>,
                                              who: (string, string) -> ServiceRecord, n: nat)
    requires IsRun(states, events) && FaithfulRequests(events, who) && n < |states|
    ensures forall m :: 0 <= m <= n ==> Faithful(states[m].kvs, who)
  {
    if n > 0 {
      FaithfulInEveryRun(states, events, who, n - 1);
      var e := events[n - 1];
      var read, now, after := ReadsOf(states, e), states[n - 1], states[n].kvs;
      assert Faithful(states[e.readAt].kvs, who) && Faithful(now.kvs, who) && states[n] == Commit(read, now, e.action);
      forall k | k in after && k.Service? && after[k].value.Record?
        ensures SameIdentity(after[k].value.service, who(k.tenant, k.serviceId))
      {
        StepRecords(read, now, e.action, k);
      }
    }
  }

  /** The service of an unguarded schema write that writes its record back exists when it commits. */
  predicate WritesLive(read: Reads, now: State, a: Action) {
    match a
    case PutSchema(t, s, x, _) =>
      HasRecord(read.first.kvs, t, s) && x !in RecordAt(read.first.kvs, t, s).schemas ==> Service(t, s) in now.kvs
    case PutSchemas(t, s, ids, contents) => |ids| == |contents| && HasRecord(read.first.kvs, t, s) ==> Service(t, s) in now.kvs
    case _ => true
  }

  lemma FaithfulFits(read: Reads, now: State, a: Action, who: (string, string) -> ServiceRecord)
    requires Faithful(read.first.kvs, who) && Faithful(now.kvs, who) && Indexed(now)
    ensures IndexFits(read, now, a) <==> WritesLive(read, now, a)
  {
    if a.SetProperties? || a.RemoveService? || a.ModifySchemas? || a.PutSchema? || a.PutSchemas? {
      if Service(a.tenant, a.serviceId) in now.kvs {
        assert RecordIndexed(now.kvs, a.tenant, a.serviceId);
        FaithfulStillThere(read.first.kvs, now.kvs, a.tenant, a.serviceId, who);
      }
    }
  }

  lemma FaithfulStillThere(read: Kvs, now: Kvs, t: string, s: string, who: (string, string) -> ServiceRecord)
    requires Faithful(read, who) && Faithful(now, who) && IndexConsistent(now) && RecordIndexed(now, t, s)
    ensures StillThere(read, now, t, s)
    ensures HasRecord(read, t, s) ==> RemovalFits(now, t, s, RecordAt(read, t, s))
  {
  }

  /** When a service id always stands for the same index fields, the index is intact in every interleaving exactly
      when no schema write brings a removed service back; all other operations check that theirs exists. */
  lemma IndexInEveryFaithfulRun(states: seq<State>, events: seq<Event>, who: (string, string) -> ServiceRecord, n: nat)
    requires IsRun(states, events) && FaithfulRequests(events, who) && n < |states|
    ensures AllStates(states, n, Indexed) <==> AllSteps(states, events, n, WritesLive)
  {
    FaithfulInEveryRun(states, events, who, n);
    forall i | 0 <= i < n ensures StepExact(states, events, i, Indexed, WritesLive) {
      LeasesInEveryRun(states, events, i);
      if Indexed(states[i]) {
        assert Faithful(states[events[i].readAt].kvs, who) && Faithful(states[i].kvs, who);
        FaithfulFits(ReadsOf(states, events[i]), states[i], events[i].action, who);
        StepIndexExact(ReadsOf(states, events[i]), states[i], events[i].action);
      }
    }
    RunExact(states, events, n, Indexed, WritesLive);
  }
}
