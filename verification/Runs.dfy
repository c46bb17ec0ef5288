/** The registry as one state machine. A step is one transaction or one lease event; the reads an operation
    makes before its transaction may each come from any earlier state of the run, so the runs cover every
    interleaving of any number of clients. A run is atomic when every step reads the state it commits on. */
module Runs {
  import opened Etcd
  import opened Services
  import opened Instances
  import SS = SchemaStore
  import SD = SchemaDiff

  datatype Action =
    | AddService(tenant: string, req: ServiceRecord, generated: string)
    | SetProperties(tenant: string, serviceId: string, properties: map<string, string>)
    | RemoveService(tenant: string, serviceId: string, force: bool, self: string, depended: bool)
    | AddInstance(tenant: string, serviceId: string, instanceId: string, data: string, lease: nat)
    | ChangeInstance(tenant: string, serviceId: string, instanceId: string, data: string)
    | GrantLease(lease: nat)
    | LoseLease(lease: nat)
    | PutSchema(tenant: string, serviceId: string, schemaId: string, content: SS.Content)
    | PutSchemas(tenant: string, serviceId: string, schemaIds: seq<string>, contents: seq<SS.Content>)
    | DropRef(tenant: string, serviceId: string, schemaId: string)
    | DropContent(tenant: string, hash: string)
    | CollectContents
    | ModifySchemas(tenant: string, serviceId: string, docs: seq<SD.Doc>, quota: bool)

  /** What an operation has read. Two operations read the store more than once before they commit: the collector
      lists contents first and references second, the legacy interface reads the service first and lists the
      schemas second, and an unregistration reads the service first and counts the instances second. */
  datatype Reads = Reads(first: State, second: State)

  function Commit(read: Reads, now: State, a: Action): State {
    match a
    case AddService(t, req, generated) => now.(kvs := AfterRegister(now.kvs, t, req, generated))
    case SetProperties(t, s, properties) => now.(kvs := AfterProperties(read.first.kvs, now.kvs, t, s, properties))
    case RemoveService(t, s, force, self, depended) =>
      now.(kvs := AfterUnregister(read.first.kvs, read.second.kvs, now.kvs, t, s, force, self, depended))
    case AddInstance(t, s, i, data, lease) => AfterRegisterInstance(now, t, s, i, data, lease)
    case ChangeInstance(t, s, i, data) => AfterUpdateInstance(read.first.kvs, now, t, s, i, data)
    case GrantLease(lease) => if lease == 0 then now else now.(leases := now.leases + {lease})
    case LoseLease(lease) => if lease in now.leases then DropLease(now, lease) else now
    case PutSchema(t, s, x, c) => now.(kvs := SS.AfterPutContent(read.first.kvs, now.kvs, t, s, x, c))
    case PutSchemas(t, s, ids, contents) => now.(kvs := SS.AfterPutMany(read.first.kvs, now.kvs, t, s, ids, contents))
    case DropRef(t, s, x) => now.(kvs := SS.AfterDeleteRef(now.kvs, t, s, x))
    case DropContent(t, hash) => now.(kvs := SS.AfterDeleteContent(read.first.kvs, now.kvs, t, hash))
    case CollectContents => now.(kvs := now.kvs - SS.Garbage(read.first.kvs, read.second.kvs))
    case ModifySchemas(t, s, docs, quota) =>
      now.(kvs := SD.AfterModify(read.first.kvs, read.second.kvs, now.kvs, t, s, docs, quota))
  }

  /** A step and the states its reads come from, in either order. */
  datatype Event = Event(action: Action, readAt: nat, secondAt: nat)

  predicate ReadsBefore(e: Event, n: nat) {
    e.readAt < n && e.secondAt < n
  }

  function ReadsOf(states: seq<State>, e: Event): Reads
    requires ReadsBefore(e, |states|)
  {
    Reads(states[e.readAt], states[e.secondAt])
  }

  ghost predicate IsRun(states: seq<State>, events: seq<Event>) {
    && |states| == |events| + 1
    && states[0] == State(map[], {})
    && forall i :: 0 <= i < |events| ==>
         ReadsBefore(events[i], i + 1) && states[i + 1] == Commit(ReadsOf(states, events[i]), states[i], events[i].action)
  }

  ghost predicate IsAtomic(events: seq<Event>) {
    forall i :: 0 <= i < |events| ==> events[i].readAt == i && events[i].secondAt == i
  }

  // ---------------------------------------------------------------- frames

  /** The step attaches no key to a lease that was not attached before. */
  predicate NoLease(now: Kvs, after: Kvs, k: Key) {
    k in after && after[k].lease != 0 ==> k in now && now[k].lease != 0
  }

  predicate SchemaStep(a: Action) {
    a.PutSchema? || a.PutSchemas? || a.DropRef? || a.DropContent? || a.CollectContents? || a.ModifySchemas?
  }

  lemma PutSchemaFrame(read: Kvs, now: Kvs, t: string, s: string, x: string, c: SS.Content, k: Key)
    ensures var after := SS.AfterPutContent(read, now, t, s, x, c);
      && (!SS.SchemaKey(k) && k != Service(t, s) ==> Same(now, after, k))
      && (k.Service? && k in now ==> k in after) && NoLease(now, after, k)
  {
  }

  lemma PutSchemasFrame(read: Kvs, now: Kvs, t: string, s: string, ids: seq<string>, contents: seq<SS.Content>, k: Key)
    ensures var after := SS.AfterPutMany(read, now, t, s, ids, contents);
      && (!SS.SchemaKey(k) && k != Service(t, s) ==> Same(now, after, k))
      && (k.Service? && k in now ==> k in after) && NoLease(now, after, k)
  {
    if |ids| == |contents| {
      SS.PutAllFrame(now, t, s, ids, contents, k);
    }
  }

  lemma {:induction false} PutDocsFrame(kvs: Kvs, tenant: string, serviceId: string, docs: seq<SD.Doc>, k: Key)
    ensures var after := SD.PutDocs(kvs, tenant, serviceId, docs);
      (!k.Schema? && !k.SchemaSummary? ==> Same(kvs, after, k)) && NoLease(kvs, after, k)
  {
    if docs != [] {
      PutDocsFrame(kvs, tenant, serviceId, docs[..|docs| - 1], k);
    }
  }

  lemma ModifyFrame(read: Kvs, listed: Kvs, now: Kvs, t: string, s: string, docs: seq<SD.Doc>, quota: bool, k: Key)
    ensures var after := SD.AfterModify(read, listed, now, t, s, docs, quota);
      && (!k.Schema? && !k.SchemaSummary? && k != Service(t, s) ==> Same(now, after, k))
      && (k.Service? && k in now ==> k in after) && NoLease(now, after, k)
  {
    PutDocsFrame(now, t, s, SD.Written(listed, t, s, docs), k);
  }

  /** A schema step touches schema keys and the record of its service, and attaches no key to a lease. */
  lemma SchemaStepFrame(read: Reads, now: State, a: Action, k: Key)
    requires SchemaStep(a)
    ensures var after := Commit(read, now, a).kvs;
      && (!k.Service? && !k.Schema? && !SS.SchemaKey(k) ==> Same(now.kvs, after, k))
      && (k.Service? && k in now.kvs ==> k in after) && NoLease(now.kvs, after, k)
  {
    match a
    case PutSchema(t, s, x, c) => PutSchemaFrame(read.first.kvs, now.kvs, t, s, x, c, k);
    case PutSchemas(t, s, ids, contents) => PutSchemasFrame(read.first.kvs, now.kvs, t, s, ids, contents, k);
    case DropRef(_, _, _) =>
    case DropContent(_, _) =>
    case CollectContents =>
    case ModifySchemas(t, s, docs, quota) => ModifyFrame(read.first.kvs, read.second.kvs, now.kvs, t, s, docs, quota, k);
  }

  // ---------------------------------------------------------------- leases

  /** What holds of leases whatever is read: none is 0, and only instance and lease keys are attached to one. */
  predicate LeasesSound(s: State) {
    0 !in s.leases && OnlyInstancesLeased(s.kvs)
  }

  lemma StepKeepsLeases(read: Reads, now: State, a: Action)
    requires LeasesSound(now)
    ensures LeasesSound(Commit(read, now, a))
  {
    if SchemaStep(a) {
      var after := Commit(read, now, a).kvs;
      forall k | k in after && after[k].lease != 0 ensures k.Instance? || k.Lease? {
        SchemaStepFrame(read, now, a, k);
      }
    }
  }

  lemma {:induction false} LeasesInEveryRun(states: seq<State>, events: seq<Event>, n: nat)
    requires IsRun(states, events) && n < |states|
    ensures LeasesSound(states[n])
  {
    if n > 0 {
      LeasesInEveryRun(states, events, n - 1);
      var read, now, a := ReadsOf(states, events[n - 1]), states[n - 1], events[n - 1].action;
      StepKeepsLeases(read, now, a);
    }
  }

  // ---------------------------------------------------------------- exact conditions over runs

  ghost predicate AllStates(states: seq<State>, n: nat, good: State -> bool)
    requires n < |states|
  {
    forall m :: 0 <= m <= n ==> good(states[m])
  }

  ghost predicate AllSteps(states: seq<State>, events: seq<Event>, n: nat, fits: (Reads, State, Action) -> bool)
    requires IsRun(states, events) && n <= |events|
  {
    forall i :: 0 <= i < n ==> fits(ReadsOf(states, events[i]), states[i], events[i].action)
  }

  lemma {:induction false} LastStep(states: seq<State>, events: seq<Event>, n: nat, fits: (Reads, State, Action) -> bool)
    requires IsRun(states, events) && n < |events|
    ensures AllSteps(states, events, n + 1, fits) <==>
      AllSteps(states, events, n, fits) && fits(ReadsOf(states, events[n]), states[n], events[n].action)
  {
  }

  ghost predicate StepExact(states: seq<State>, events: seq<Event>, i: nat, good: State -> bool,
                            fits: (Reads, State, Action) -> bool)
    requires IsRun(states, events) && i < |events|
  {
    good(states[i]) ==> (good(states[i + 1]) <==> fits(ReadsOf(states, events[i]), states[i], events[i].action))
  }

  /** A condition that is exact for every step is exact for the run. */
  lemma {:induction false} RunExact(states: seq<State>, events: seq<Event>, n: nat, good: State -> bool,
                                    fits: (Reads, State, Action) -> bool)
    requires IsRun(states, events) && n < |states| && good(states[0])
    requires forall i :: 0 <= i < n ==> StepExact(states, events, i, good, fits)
    ensures AllStates(states, n, good) <==> AllSteps(states, events, n, fits)
  {
    if n > 0 {
      RunExact(states, events, n - 1, good, fits);
      LastState(states, n, good);
      LastStep(states, events, n - 1, fits);
      assert StepExact(states, events, n - 1, good, fits);
    }
  }

  lemma {:induction false} LastState(states: seq<State>, n: nat, good: State -> bool)
    requires 0 < n < |states|
    ensures AllStates(states, n, good) <==> AllStates(states, n - 1, good) && good(states[n])
    ensures AllStates(states, n - 1, good) ==> good(states[n - 1])
  {
  }

  // ---------------------------------------------------------------- building runs

  /** A step all of whose reads come from one state. */
  function At(a: Action, i: nat): Event {
    Event(a, i, i)
  }

  function Extend(states: seq<State>, e: Event): seq<State>
    requires |states| > 0 && ReadsBefore(e, |states|)
  {
    states + [Commit(ReadsOf(states, e), states[|states| - 1], e.action)]
  }

  lemma {:induction false} ExtendIsRun(states: seq<State>, events: seq<Event>, e: Event)
    requires IsRun(states, events) && ReadsBefore(e, |states|)
    ensures IsRun(Extend(states, e), events + [e])
  {
    var longer, all := Extend(states, e), events + [e];
    forall i | 0 <= i < |all|
      ensures ReadsBefore(all[i], i + 1) && longer[i + 1] == Commit(ReadsOf(longer, all[i]), longer[i], all[i].action)
    {
      if i < |events| {
        assert all[i] == events[i] && ReadsOf(longer, events[i]) == ReadsOf(states, events[i]);
        assert longer[i] == states[i] && longer[i + 1] == states[i + 1];
      }
    }
  }
}
