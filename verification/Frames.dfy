/** What a step of the registry leaves alone: all keys but the few named for it, and all keys of other tenants. */
module Frames {
  import opened Etcd
  import opened Services
  import opened Runs
  import SS = SchemaStore
  import SD = SchemaDiff

  /** The keys a step may change. */
  predicate Touches(now: State, a: Action, k: Key) {
    match a
    case AddService(t, req, generated) =>
      || k == Service(t, WithId(req, generated).serviceId) || k == IndexOf(t, req)
      || (req.alias != "" && k == AliasOf(t, req))
    case SetProperties(t, s, _) => k == Service(t, s)
    case RemoveService(t, s, _, _, _) =>
      || k == Service(t, s) || k == Tag(t, s) || k == DependencyQueue(t, s, "0") || Below(k, t, s)
      || ((k.Index? || k.Alias?) && k.tenant == t)
    case AddInstance(t, s, i, _, _) => k == Instance(t, s, i) || k == Lease(t, s, i)
    case ChangeInstance(t, s, i, _) => k == Instance(t, s, i)
    case GrantLease(_) => false
    case LoseLease(lease) => k in now.kvs && now.kvs[k].lease == lease
    case PutSchema(t, s, x, c) =>
      k == Service(t, s) || k == SchemaRef(t, s, x) || k == SchemaSummary(t, s, x) || k == SchemaContent(t, c.hash)
    case PutSchemas(t, s, ids, contents) =>
      || k == Service(t, s) || ((k.SchemaRef? || k.SchemaSummary?) && Own(k, t, s))
      || exists c :: c in contents && k == SchemaContent(t, c.hash)
    case DropRef(t, s, x) => k == SchemaRef(t, s, x) || k == SchemaSummary(t, s, x)
    case DropContent(t, hash) => k == SchemaContent(t, hash)
    case CollectContents => k.SchemaContent?
    case ModifySchemas(t, s, _, _) => k == Service(t, s) || ((k.Schema? || k.SchemaSummary?) && Own(k, t, s))
  }

  lemma {:induction false} PutAllTouches(kvs: Kvs, t: string, s: string, ids: seq<string>, contents: seq<SS.Content>, k: Key)
    requires |ids| == |contents|
    requires !((k.SchemaRef? || k.SchemaSummary?) && Own(k, t, s))
    requires forall c :: c in contents ==> k != SchemaContent(t, c.hash)
    ensures Same(kvs, SS.PutAll(kvs, t, s, ids, contents), k)
  {
    if ids != [] {
      var n := |ids| - 1;
      PutAllTouches(kvs, t, s, ids[..n], contents[..n], k);
      assert contents[n] in contents;
    }
  }

  lemma {:induction false} PutDocsTouches(kvs: Kvs, t: string, s: string, docs: seq<SD.Doc>, k: Key)
    requires !((k.Schema? || k.SchemaSummary?) && Own(k, t, s))
    ensures Same(kvs, SD.PutDocs(kvs, t, s, docs), k)
  {
    if docs != [] {
      PutDocsTouches(kvs, t, s, docs[..|docs| - 1], k);
    }
  }

  lemma ReplaceTouches(read: Kvs, now: Kvs, t: string, s: string, ids: seq<string>, contents: seq<SS.Content>, k: Key)
    requires k != Service(t, s) && !((k.SchemaRef? || k.SchemaSummary?) && Own(k, t, s))
    requires forall c :: c in contents ==> k != SchemaContent(t, c.hash)
    ensures Same(now, SS.AfterPutMany(read, now, t, s, ids, contents), k)
  {
    if |ids| == |contents| {
      PutAllTouches(now, t, s, ids, contents, k);
    }
  }

  lemma ModifyTouches(read: Kvs, listed: Kvs, now: Kvs, t: string, s: string, docs: seq<SD.Doc>, quota: bool, k: Key)
    requires k != Service(t, s) && !((k.Schema? || k.SchemaSummary?) && Own(k, t, s))
    ensures Same(now, SD.AfterModify(read, listed, now, t, s, docs, quota), k)
  {
    PutDocsTouches(now, t, s, SD.Written(listed, t, s, docs), k);
  }

  lemma SchemaStepTouches(read: Reads, now: State, a: Action, k: Key)
    requires SchemaStep(a) && !Touches(now, a, k)
    ensures Same(now.kvs, Commit(read, now, a).kvs, k)
  {
    match a
    case PutSchemas(t, s, ids, contents) => ReplaceTouches(read.first.kvs, now.kvs, t, s, ids, contents, k);
    case ModifySchemas(t, s, docs, quota) => ModifyTouches(read.first.kvs, read.second.kvs, now.kvs, t, s, docs, quota, k);
    case _ =>
  }

  lemma RegistryStepTouches(read: Reads, now: State, a: Action, k: Key)
    requires !SchemaStep(a) && !Touches(now, a, k)
    ensures Same(now.kvs, Commit(read, now, a).kvs, k)
  {
  }

  /** Whatever it has read, a step changes no other key, and only grants and losses change the set of leases. */
  lemma StepTouches(read: Reads, now: State, a: Action, k: Key)
    ensures !Touches(now, a, k) ==> Same(now.kvs, Commit(read, now, a).kvs, k)
    ensures !a.GrantLease? && !a.LoseLease? ==> Commit(read, now, a).leases == now.leases
  {
    if !Touches(now, a, k) {
      if SchemaStep(a) {
        SchemaStepTouches(read, now, a, k);
      } else {
        RegistryStepTouches(read, now, a, k);
      }
    }
  }

  // ---------------------------------------------------------------- tenants

  predicate KeyOf(t: string, k: Key) {
    match k
    case AccountOf(_) => false
    case RoleOf(_) => false
    case RoleAccount(_, _) => false
    case _ => k.tenant == t
  }

  /** A request of another tenant; lease events and the collector belong to no tenant. */
  predicate Elsewhere(t: string, a: Action) {
    match a
    case GrantLease(_) => true
    case LoseLease(_) => false
    case CollectContents => false
    case _ => a.tenant != t
  }

  lemma ElsewhereTouchesNot(now: State, a: Action, t: string, k: Key)
    requires KeyOf(t, k) && Elsewhere(t, a)
    ensures !Touches(now, a, k)
  {
  }

  lemma ElsewhereStep(read: Reads, now: State, a: Action, t: string, k: Key)
    requires KeyOf(t, k) && Elsewhere(t, a)
    ensures Same(now.kvs, Commit(read, now, a).kvs, k)
  {
    ElsewhereTouchesNot(now, a, t, k);
    StepTouches(read, now, a, k);
  }

  predicate SameAfterStep(states: seq<State>, i: nat, k: Key)
    requires i + 1 < |states|
  {
    Same(states[i].kvs, states[i + 1].kvs, k)
  }

  lemma {:induction false} SameAlong(states: seq<State>, m: nat, n: nat, k: Key)
    requires m <= n < |states| && forall i :: m <= i < n ==> SameAfterStep(states, i, k)
    ensures Same(states[m].kvs, states[n].kvs, k)
  {
    if m < n {
      SameAlong(states, m, n - 1, k);
      assert SameAfterStep(states, n - 1, k);
    }
  }

  /** In every interleaving, with reads of any age, the keys of a tenant are the same before and after any stretch of
      requests of other tenants. */
  lemma {:induction false} TenantsAreIsolated(states: seq<State>, events: seq<Event>, m: nat, n: nat, t: string, k: Key)
    requires IsRun(states, events) && m <= n < |states| && KeyOf(t, k)
    requires forall i :: m <= i < n ==> Elsewhere(t, events[i].action)
    ensures Same(states[m].kvs, states[n].kvs, k)
  {
    forall i | m <= i < n ensures SameAfterStep(states, i, k) {
      ElsewhereStep(ReadsOf(states, events[i]), states[i], events[i].action, t, k);
    }
    SameAlong(states, m, n, k);
  }
}
