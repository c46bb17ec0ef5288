/** The content-addressed schema store over every run: it refines a plain map, and references stay listed. */
module SchemaRuns {
  import opened Etcd
  import opened Options
  import opened Services
  import opened Runs
  import opened IndexRuns
  import opened SchemaStore
  import SD = SchemaDiff
  import P = Paths

  // ---------------------------------------------------------------- references are listed

  predicate Listed(s: State) {
    RefsListed(s.kvs)
  }

  /** When a step keeps every reference listed by its service: a record that is written back on the word of an
      earlier read must list the references there are when it is written. */
  predicate ListingFits(read: Reads, now: State, a: Action) {
    match a
    case SetProperties(t, s, _) =>
      HasRecord(read.first.kvs, t, s) && Service(t, s) in now.kvs ==> OwnRefsIn(now.kvs, t, s, RecordAt(read.first.kvs, t, s).schemas)
    case PutSchema(t, s, x, _) => PutContentFits(read.first.kvs, now.kvs, t, s, x)
    case PutSchemas(t, s, ids, contents) => PutManyFits(read.first.kvs, now.kvs, t, s, ids, contents)
    case ModifySchemas(t, s, docs, quota) =>
      ModifyCommits(read.first.kvs, read.second.kvs, now.kvs, t, s, docs, quota) ==>
        OwnRefsIn(now.kvs, t, s, SD.IdList(SD.Written(read.second.kvs, t, s, docs)))
    case _ => true
  }

  lemma ModifyListsExact(read: Kvs, listed: Kvs, now: Kvs, t: string, s: string, docs: seq<SD.Doc>, quota: bool)
    requires RefsListed(now) && ModifyCommits(read, listed, now, t, s, docs, quota)
    ensures RefsListed(SD.AfterModify(read, listed, now, t, s, docs, quota))
      <==> OwnRefsIn(now, t, s, SD.IdList(SD.Written(listed, t, s, docs)))
  {
    var ids := SD.IdList(SD.Written(listed, t, s, docs));
    var written, after := RecordAt(read, t, s).(schemas := ids), SD.AfterModify(read, listed, now, t, s, docs, quota);
    var rewritten := WithRecord(now, t, written, s);
    forall k: Key | k.SchemaRef? || k.Service? ensures Same(rewritten, after, k) {
      ModifyFrame(read, listed, now, t, s, docs, quota, k);
    }
    RewriteListsExact(now, t, written, s);
    SameListing(rewritten, after);
  }

  lemma SameListing(kvs: Kvs, after: Kvs)
    requires forall k: Key :: k.SchemaRef? || k.Service? ==> Same(kvs, after, k)
    ensures RefsListed(kvs) <==> RefsListed(after)
  {
    forall k | k in kvs && k.SchemaRef? ensures RefListed(kvs, k) <==> RefListed(after, k) {
      assert Same(kvs, after, k) && Same(kvs, after, Service(k.tenant, k.serviceId));
    }
    forall k | k in after && k.SchemaRef? ensures k in kvs {
      assert Same(kvs, after, k);
    }
  }

  lemma RegisterKeepsListing(kvs: Kvs, t: string, req: ServiceRecord, generated: string)
    requires RefsListed(kvs)
    ensures RefsListed(AfterRegister(kvs, t, req, generated))
  {
    SameRecordsList(kvs, AfterRegister(kvs, t, req, generated));
  }

  lemma LeaseStepKeepsListing(read: Reads, now: State, a: Action)
    requires RefsListed(now.kvs) && LeasesSound(now)
    requires a.AddInstance? || a.ChangeInstance? || a.GrantLease? || a.LoseLease?
    ensures Listed(Commit(read, now, a))
  {
    SameRecordsList(now.kvs, Commit(read, now, a).kvs);
  }

  lemma DropStepKeepsListing(read: Reads, now: State, a: Action)
    requires RefsListed(now.kvs) && (a.DropRef? || a.DropContent? || a.CollectContents?)
    ensures Listed(Commit(read, now, a))
  {
    if a.DropRef? {
      DeleteRefLists(now.kvs, a.tenant, a.serviceId, a.schemaId);
    } else if a.DropContent? {
      CollectLists(now.kvs, {SchemaContent(a.tenant, a.hash)});
    } else {
      CollectLists(now.kvs, Garbage(read.first.kvs, read.second.kvs));
    }
  }

  lemma WriteStepListsExact(read: Reads, now: State, a: Action)
    requires RefsListed(now.kvs) && (a.PutSchema? || a.PutSchemas? || a.ModifySchemas?)
    ensures Listed(Commit(read, now, a)) <==> ListingFits(read, now, a)
  {
    match a
    case PutSchema(t, s, x, c) => PutContentListsExact(read.first.kvs, now.kvs, t, s, x, c);
    case PutSchemas(t, s, ids, contents) => PutManyListsExact(read.first.kvs, now.kvs, t, s, ids, contents);
    case ModifySchemas(t, s, docs, quota) =>
      if ModifyCommits(read.first.kvs, read.second.kvs, now.kvs, t, s, docs, quota) {
        ModifyListsExact(read.first.kvs, read.second.kvs, now.kvs, t, s, docs, quota);
      }
  }

  lemma StepListsExact(read: Reads, now: State, a: Action)
    requires RefsListed(now.kvs) && LeasesSound(now)
    ensures Listed(Commit(read, now, a)) <==> ListingFits(read, now, a)
  {
    if a.PutSchema? || a.PutSchemas? || a.ModifySchemas? {
      WriteStepListsExact(read, now, a);
    } else if a.DropRef? || a.DropContent? || a.CollectContents? {
      DropStepKeepsListing(read, now, a);
    } else if a.AddService? {
      RegisterKeepsListing(now.kvs, a.tenant, a.req, a.generated);
    } else if a.SetProperties? {
      PropertiesListExact(read.first.kvs, now.kvs, a.tenant, a.serviceId, a.properties);
    } else if a.RemoveService? {
      if HasRecord(read.first.kvs, a.tenant, a.serviceId) {
        RemovedLists(now.kvs, a.tenant, a.serviceId, RecordAt(read.first.kvs, a.tenant, a.serviceId));
      }
    } else {
      LeaseStepKeepsListing(read, now, a);
    }
  }

  /** In every interleaving of all thirteen kinds of step, every reference is listed by its service exactly when
      every record that is written back lists the references there are when it is written. */
  lemma ListingInEveryRun(states: seq<State>, events: seq<Event>, n: nat)
    requires IsRun(states, events) && n < |states|
    ensures AllStates(states, n, Listed) <==> AllSteps(states, events, n, ListingFits)
  {
    forall i | 0 <= i < n ensures StepExact(states, events, i, Listed, ListingFits) {
      LeasesInEveryRun(states, events, i);
      if Listed(states[i]) {
        StepListsExact(ReadsOf(states, events[i]), states[i], events[i].action);
      }
    }
    RunExact(states, events, n, Listed, ListingFits);
  }

  // ---------------------------------------------------------------- the plain map

  /** Whether an operation that read one state and commits on another goes through. */
  predicate Succeeds(read: Reads, now: State, a: Action) {
    match a
    case RemoveService(t, s, force, self, depended) =>
      UnregisterCheck(read.first.kvs, read.second.kvs, t, s, force, self, depended).Unregistered? && Service(t, s) in now.kvs
    case PutSchema(t, s, _, _) => HasRecord(read.first.kvs, t, s)
    case PutSchemas(t, s, ids, contents) => |ids| == |contents| && HasRecord(read.first.kvs, t, s)
    case _ => true
  }

  /** The same operations on a plain map from references to contents and summaries. */
  function PlainStep(m: Plain, a: Action, ok: bool): Plain {
    match a
    case RemoveService(t, s, _, _, _) => if ok then Without(m, t, s) else m
    case PutSchema(t, s, x, c) => if ok then m[SchemaRef(t, s, x) := Stored(c.content, c.summary)] else m
    case PutSchemas(t, s, ids, contents) =>
      if ok && |ids| == |contents| then PlainPuts(WithoutOwn(m, t, s), t, s, ids, contents) else m
    case DropRef(t, s, x) => m - {SchemaRef(t, s, x)}
    case _ => m
  }

  ghost function PlainRun(states: seq<State>, events: seq<Event>, n: nat): Plain
    requires IsRun(states, events) && n <= |events|
  {
    if n == 0 then map[]
    else
      var e := events[n - 1];
      PlainStep(PlainRun(states, events, n - 1), e.action, Succeeds(ReadsOf(states, e), states[n - 1], e.action))
  }

  /** The contents an action carries are those their hashes stand for. */
  predicate CarriesSource(a: Action, source: string -> string) {
    match a
    case PutSchema(_, _, _, c) => c.content == source(c.hash)
    case PutSchemas(_, _, _, contents) => AllAgree(contents, source)
    case _ => true
  }

  /** When a step does to the store what it does to the plain map: a replacement leaves no reference behind, and a
      collector drops nothing that is referred to. */
  predicate RefineFits(read: Reads, now: State, a: Action) {
    match a
    case PutSchemas(t, s, ids, contents) => PutManyFits(read.first.kvs, now.kvs, t, s, ids, contents)
    case DropContent(t, hash) => Referenced(read.first.kvs, t, hash) || !Referenced(now.kvs, t, hash)
    case CollectContents => forall k :: k in Garbage(read.first.kvs, read.second.kvs) ==> !Referenced(now.kvs, k.tenant, k.hash)
    case _ => true
  }

  ghost predicate Refines(read: Reads, now: State, a: Action, source: string -> string) {
    && Resolved(Commit(read, now, a).kvs, source)
    && View(Commit(read, now, a).kvs) == PlainStep(View(now.kvs), a, Succeeds(read, now, a))
  }

  lemma ReplaceRefinesExact(read: Reads, now: State, a: Action, source: string -> string)
    requires Resolved(now.kvs, source) && CarriesSource(a, source) && a.PutSchemas?
    ensures Refines(read, now, a, source) <==> RefineFits(read, now, a)
  {
    var t, s, ids, contents := a.tenant, a.serviceId, a.schemaIds, a.contents;
    PutManyRefines(read.first.kvs, now.kvs, t, s, ids, contents, source);
    if Succeeds(read, now, a) && !PutManyFits(read.first.kvs, now.kvs, t, s, ids, contents) {
      OrphanIsVisible(read.first.kvs, now.kvs, t, s, ids, contents, source);
    }
  }

  /** A reference that neither the record read nor the request names outlives the replacement. */
  lemma OrphanIsVisible(read: Kvs, now: Kvs, t: string, s: string, ids: seq<string>, contents: seq<Content>,
                        source: string -> string)
    requires Resolved(now, source) && AllAgree(contents, source) && |ids| == |contents| && HasRecord(read, t, s)
    requires !PutManyFits(read, now, t, s, ids, contents)
    ensures View(AfterPutMany(read, now, t, s, ids, contents)) != PlainPuts(WithoutOwn(View(now), t, s), t, s, ids, contents)
  {
    var after := AfterPutMany(read, now, t, s, ids, contents);
    var listed := RecordAt(read, t, s).schemas;
    var k :| k in now && k.SchemaRef? && Own(k, t, s) && k.schemaId !in listed + ids;
    PutManyRefines(read, now, t, s, ids, contents, source);
    PutAllFrame(now, t, s, ids, contents, k);
    assert k in after && SchemaContent(k.tenant, TextAt(after, k)) in after;
    assert k in View(after);
    PlainPutsAt(WithoutOwn(View(now), t, s), map[], t, s, ids, contents, k);
  }

  lemma CollectorRefinesExact(read: Reads, now: State, a: Action, source: string -> string)
    requires Resolved(now.kvs, source) && (a.DropContent? || a.CollectContents?)
    ensures Refines(read, now, a, source) <==> RefineFits(read, now, a)
  {
    if a.DropContent? {
      DeleteContentExact(read.first.kvs, now.kvs, a.tenant, a.hash);
      if RefineFits(read, now, a) {
        DeleteContentInvisible(read.first.kvs, now.kvs, a.tenant, a.hash, source);
      }
    } else {
      CollectExact(read.first.kvs, read.second.kvs, now.kvs);
      if RefineFits(read, now, a) {
        CollectInvisible(now.kvs, Garbage(read.first.kvs, read.second.kvs), source);
      }
    }
  }

  lemma ServiceStepSameSchemas(read: Reads, now: State, a: Action)
    requires a.AddService? || a.SetProperties?
    ensures SameSchemaKeys(now.kvs, Commit(read, now, a).kvs)
  {
  }

  lemma LeaseStepSameSchemas(read: Reads, now: State, a: Action)
    requires LeasesSound(now) && (a.AddInstance? || a.ChangeInstance? || a.GrantLease? || a.LoseLease?)
    ensures SameSchemaKeys(now.kvs, Commit(read, now, a).kvs)
  {
  }

  lemma RegistryStepRefines(read: Reads, now: State, a: Action, source: string -> string)
    requires Resolved(now.kvs, source) && LeasesSound(now) && !SchemaStep(a)
    ensures Refines(read, now, a, source)
  {
    if a.RemoveService? {
      if Succeeds(read, now, a) {
        RemovedRefines(now.kvs, a.tenant, a.serviceId, RecordAt(read.first.kvs, a.tenant, a.serviceId), source);
      }
    } else {
      if a.AddService? || a.SetProperties? {
        ServiceStepSameSchemas(read, now, a);
      } else {
        LeaseStepSameSchemas(read, now, a);
      }
      SameSchemaKeysKeep(now.kvs, Commit(read, now, a).kvs, source);
    }
  }

  lemma StepRefinesExact(read: Reads, now: State, a: Action, source: string -> string)
    requires Resolved(now.kvs, source) && LeasesSound(now) && CarriesSource(a, source) && !a.ModifySchemas?
    ensures Refines(read, now, a, source) <==> RefineFits(read, now, a)
  {
    if !SchemaStep(a) {
      RegistryStepRefines(read, now, a, source);
    } else if a.PutSchema? {
      PutContentRefines(read.first.kvs, now.kvs, a.tenant, a.serviceId, a.schemaId, a.content, source);
    } else if a.PutSchemas? {
      ReplaceRefinesExact(read, now, a, source);
    } else if a.DropRef? {
      DeleteRefRefines(now.kvs, a.tenant, a.serviceId, a.schemaId, source);
    } else {
      CollectorRefinesExact(read, now, a, source);
    }
  }

  /** At state `m` every reference resolves and the lookups are those of the plain map. */
  ghost predicate RefinesAt(states: seq<State>, events: seq<Event>, m: nat, source: string -> string)
    requires IsRun(states, events) && m < |states|
  {
    Resolved(states[m].kvs, source) && View(states[m].kvs) == PlainRun(states, events, m)
  }

  ghost predicate RefinesUpTo(states: seq<State>, events: seq<Event>, n: nat, source: string -> string)
    requires IsRun(states, events) && n < |states|
  {
    forall m :: 0 <= m <= n ==> RefinesAt(states, events, m, source)
  }

  /** In every interleaving of the operations other than the legacy schema interface, the store refines the plain
      map, collectors included, exactly when every replacement and every collector fits. */
  lemma {:induction false} SchemasRefineInEveryRun(states: seq<State>, events: seq<Event>, source: string -> string, n: nat)
    requires IsRun(states, events) && n < |states|
    requires forall i :: 0 <= i < n ==> CarriesSource(events[i].action, source) && !events[i].action.ModifySchemas?
    ensures RefinesUpTo(states, events, n, source) <==> AllSteps(states, events, n, RefineFits)
  {
    if n > 0 {
      SchemasRefineInEveryRun(states, events, source, n - 1);
      var e := events[n - 1];
      LeasesInEveryRun(states, events, n - 1);
      if RefinesUpTo(states, events, n - 1, source) {
        assert RefinesAt(states, events, n - 1, source);
        StepRefinesExact(ReadsOf(states, e), states[n - 1], e.action, source);
        assert RefinesAt(states, events, n, source) <==> RefineFits(ReadsOf(states, e), states[n - 1], e.action);
      }
      LastState(states, events, source, n);
      LastStep(states, events, n - 1, RefineFits);
    }
  }

  lemma LastState(states: seq<State>, events: seq<Event>, source: string -> string, n: nat)
    requires IsRun(states, events) && 0 < n < |states|
    ensures RefinesUpTo(states, events, n, source) <==>
      RefinesUpTo(states, events, n - 1, source) && RefinesAt(states, events, n, source)
  {
    if RefinesUpTo(states, events, n, source) {
      assert RefinesAt(states, events, n, source);
    }
  }

  // ---------------------------------------------------------------- atomic runs

  /** Every reference key is read back under its own tenant. */
  predicate Readable(s: State) {
    forall k :: k in s.kvs && k.SchemaRef? ==> P.ReadTenant(k) == k.tenant
  }

  predicate PutsReadable(a: Action) {
    match a
    case PutSchema(t, s, x, _) => P.ReadTenant(SchemaRef(t, s, x)) == t
    case PutSchemas(t, s, ids, _) => forall x :: x in ids ==> P.ReadTenant(SchemaRef(t, s, x)) == t
    case _ => true
  }

  /** Service ids free of "/" are enough. */
  lemma PlainIsReadable(t: string, s: string, x: string)
    requires P.IsTenant(t) && P.Plain(s) && P.Plain(x)
    ensures P.ReadTenant(SchemaRef(t, s, x)) == t
  {
    var k := SchemaRef(t, s, x);
    assert P.WellFormed(k);
    P.InfoExact(k);
  }

  /** The references of a step are those of the store and those it puts. */
  lemma StepRefs(read: Reads, now: State, a: Action, k: Key)
    requires k.SchemaRef? && k in Commit(read, now, a).kvs && k !in now.kvs
    ensures (a.PutSchema? && k == SchemaRef(a.tenant, a.serviceId, a.schemaId)) ||
      (a.PutSchemas? && Own(k, a.tenant, a.serviceId) && k.schemaId in a.schemaIds)
  {
    if a.PutSchemas? && |a.schemaIds| == |a.contents| {
      PutAllFrame(now.kvs, a.tenant, a.serviceId, a.schemaIds, a.contents, k);
    } else if a.ModifySchemas? {
      ModifyFrame(read.first.kvs, read.second.kvs, now.kvs, a.tenant, a.serviceId, a.docs, a.quota, k);
    }
  }

  lemma StepKeepsReadable(read: Reads, now: State, a: Action)
    requires Readable(now) && PutsReadable(a)
    ensures Readable(Commit(read, now, a))
  {
    forall k | k in Commit(read, now, a).kvs && k.SchemaRef? ensures P.ReadTenant(k) == k.tenant {
      if k !in now.kvs {
        StepRefs(read, now, a, k);
        assert k == SchemaRef(a.tenant, a.serviceId, k.schemaId);
      }
    }
  }

  lemma CurrentFits(now: State, a: Action)
    requires Listed(now) && Readable(now) && !a.ModifySchemas?
    ensures ListingFits(Reads(now, now), now, a) && RefineFits(Reads(now, now), now, a)
  {
    match a
    case SetProperties(t, s, _) => OwnRefsListed(now.kvs, t, s);
    case PutSchema(t, s, x, _) => OwnRefsListed(now.kvs, t, s);
    case PutSchemas(t, s, ids, _) => OwnRefsListed(now.kvs, t, s);
    case CollectContents => GarbageIsUnreferenced(now);
    case _ =>
  }

  lemma OwnRefsListed(kvs: Kvs, t: string, s: string)
    requires RefsListed(kvs)
    ensures HasRecord(kvs, t, s) ==> OwnRefsIn(kvs, t, s, RecordAt(kvs, t, s).schemas)
  {
    forall k | k in kvs && k.SchemaRef? && Own(k, t, s)
      ensures HasRecord(kvs, t, s) && k.schemaId in RecordAt(kvs, t, s).schemas
    {
      assert RefListed(kvs, k);
    }
  }

  lemma GarbageIsUnreferenced(s: State)
    requires Readable(s)
    ensures forall k :: k in Garbage(s.kvs, s.kvs) ==> !Referenced(s.kvs, k.tenant, k.hash)
  {
    forall k | k in Garbage(s.kvs, s.kvs) ensures !Referenced(s.kvs, k.tenant, k.hash) {
      forall m | m in s.kvs && m.SchemaRef? && m.tenant == k.tenant ensures TextAt(s.kvs, m) != k.hash {
        assert P.ReadTenant(m) == k.tenant;
      }
    }
  }

  /** Current reads always fit where reference keys are read back right. So over every atomic run the store is the
      plain map: looking up a reference and then its hash gives the last content put, the collectors are
      invisible, and every reference resolves and is listed by its service. */
  lemma {:induction false} SchemasRefineInEveryAtomicRun(states: seq<State>, events: seq<Event>, source: string -> string,
                                                         n: nat)
    requires IsRun(states, events) && IsAtomic(events) && n < |states|
    requires forall i :: 0 <= i < n ==>
               var a := events[i].action; CarriesSource(a, source) && PutsReadable(a) && !a.ModifySchemas?
    ensures Listed(states[n]) && Readable(states[n]) && RefinesAt(states, events, n, source)
    ensures forall k :: k in states[n].kvs && k.SchemaRef? ==>
              k in PlainRun(states, events, n) && Lookup(states[n].kvs, k) == Some(PlainRun(states, events, n)[k])
  {
    if n > 0 {
      SchemasRefineInEveryAtomicRun(states, events, source, n - 1);
      var now, a := states[n - 1], events[n - 1].action;
      var read := Reads(now, now);
      assert states[n] == Commit(read, now, a);
      LeasesInEveryRun(states, events, n - 1);
      CurrentFits(now, a);
      StepListsExact(read, now, a);
      StepKeepsReadable(read, now, a);
      StepRefinesExact(read, now, a, source);
    }
    RefsAreViewed(states[n].kvs);
  }

  lemma RefsAreViewed(kvs: Kvs)
    requires RefsResolved(kvs)
    ensures forall k :: k in kvs && k.SchemaRef? ==> k in View(kvs) && Lookup(kvs, k) == Some(View(kvs)[k])
  {
    forall k | k in kvs && k.SchemaRef? ensures Lookup(kvs, k).Some? {
    }
  }
}
