/** The content-addressed schema store: references from (service, schema id) to a content hash, contents
    stored once per hash, summaries beside the references, and two collectors for unreferenced contents.
    It refines a plain map from (service, schema id) to content and summary. */
module SchemaStore {
  import opened Etcd
  import opened Options
  import opened Services
  import P = Paths

  datatype Content = Content(hash: string, content: string, summary: string)

  datatype RefInfo = RefInfo(hash: string, summary: string)

  function TextAt(kvs: Kvs, k: Key): string
    requires k in kvs
  {
    if kvs[k].value.Text? then kvs[k].value.text else ""
  }

  function GetRef(kvs: Kvs, tenant: string, serviceId: string, schemaId: string): Option<RefInfo> {
    var refKey, summaryKey := SchemaRef(tenant, serviceId, schemaId), SchemaSummary(tenant, serviceId, schemaId);
    if refKey !in kvs then None
    else Some(RefInfo(TextAt(kvs, refKey), if summaryKey in kvs then TextAt(kvs, summaryKey) else ""))
  }

  function GetContent(kvs: Kvs, tenant: string, hash: string): Option<string> {
    if SchemaContent(tenant, hash) in kvs then Some(TextAt(kvs, SchemaContent(tenant, hash))) else None
  }

  // ---------------------------------------------------------------- the plain map

  datatype Stored = Stored(content: string, summary: string)

  /** What a client sees under a reference: GetRef, then GetContent of its hash. */
  function Lookup(kvs: Kvs, k: Key): Option<Stored>
    requires k.SchemaRef?
  {
    match GetRef(kvs, k.tenant, k.serviceId, k.schemaId)
    case None => None
    case Some(ref) =>
      match GetContent(kvs, k.tenant, ref.hash)
      case None => None
      case Some(text) => Some(Stored(text, ref.summary))
  }

  type Plain = map<Key, Stored>

  function View(kvs: Kvs): Plain {
    map k | k in kvs && k.SchemaRef? && Lookup(kvs, k).Some? :: Lookup(kvs, k).value
  }

  /** Without what the prefix of a service id finds. */
  function Without(m: Plain, tenant: string, serviceId: string): Plain {
    map k | k in m && !Below(k, tenant, serviceId) :: m[k]
  }

  function WithoutOwn(m: Plain, tenant: string, serviceId: string): Plain {
    map k | k in m && !Own(k, tenant, serviceId) :: m[k]
  }

  function PlainPuts(m: Plain, tenant: string, serviceId: string, ids: seq<string>, contents: seq<Content>): Plain
    requires |ids| == |contents|
  {
    if ids == [] then m
    else
      var n := |ids| - 1;
      PlainPuts(m, tenant, serviceId, ids[..n], contents[..n])
        [SchemaRef(tenant, serviceId, ids[n]) := Stored(contents[n].content, contents[n].summary)]
  }

  // ---------------------------------------------------------------- invariants

  predicate RefListed(kvs: Kvs, k: Key)
    requires k in kvs && k.SchemaRef?
  {
    && kvs[k].value.Text?
    && HasRecord(kvs, k.tenant, k.serviceId)
    && k.schemaId in RecordAt(kvs, k.tenant, k.serviceId).schemas
  }

  /** Every reference is listed in the schemas of its service, so replacing those leaves no orphan. */
  predicate RefsListed(kvs: Kvs) {
    forall k :: k in kvs && k.SchemaRef? ==> RefListed(kvs, k)
  }

  predicate RefsResolved(kvs: Kvs) {
    forall k :: k in kvs && k.SchemaRef? ==> SchemaContent(k.tenant, TextAt(kvs, k)) in kvs
  }

  predicate SummariesRefer(kvs: Kvs) {
    forall k :: k in kvs && k.SchemaSummary? ==> SchemaRef(k.tenant, k.serviceId, k.schemaId) in kvs
  }

  /** Equal hashes carry equal contents: `source` gives the content of a hash. */
  predicate ContentsAgree(kvs: Kvs, source: string -> string) {
    forall k :: k in kvs && k.SchemaContent? ==> kvs[k].value == Text(source(k.hash))
  }

  /** What holds of references, summaries and contents without looking at service records. */
  predicate Resolved(kvs: Kvs, source: string -> string) {
    RefsResolved(kvs) && SummariesRefer(kvs) && ContentsAgree(kvs, source)
  }

  /** The references of a service are all for these ids. */
  predicate OwnRefsIn(kvs: Kvs, tenant: string, serviceId: string, ids: seq<string>) {
    forall k :: k in kvs && k.SchemaRef? && Own(k, tenant, serviceId) ==> k.schemaId in ids
  }

  predicate SchemaKey(k: Key) {
    k.SchemaRef? || k.SchemaSummary? || k.SchemaContent?
  }

  // ---------------------------------------------------------------- one schema

  function WithContent(kvs: Kvs, tenant: string, c: Content): Kvs {
    kvs[SchemaContent(tenant, c.hash) := Entry(Text(c.content), 0)]
  }

  function WithRef(kvs: Kvs, tenant: string, serviceId: string, schemaId: string, c: Content): Kvs {
    kvs[SchemaRef(tenant, serviceId, schemaId) := Entry(Text(c.hash), 0)]
       [SchemaSummary(tenant, serviceId, schemaId) := Entry(Text(c.summary), 0)]
  }

  function WithRecord(kvs: Kvs, tenant: string, r: ServiceRecord, serviceId: string): Kvs {
    kvs[Service(tenant, serviceId) := Entry(Record(r), 0)]
  }

  /** `read` is the store the service was read from, `now` the store the transaction commits on. */
  function AfterPutContent(read: Kvs, now: Kvs, tenant: string, serviceId: string, schemaId: string, c: Content): Kvs {
    if !HasRecord(read, tenant, serviceId) then now
    else
      var r := RecordAt(read, tenant, serviceId);
      var filled := if SchemaContent(tenant, c.hash) in now then now else WithContent(now, tenant, c);
      var listed := if schemaId in r.schemas then filled
                    else WithRecord(filled, tenant, r.(schemas := r.schemas + [schemaId]), serviceId);
      WithRef(listed, tenant, serviceId, schemaId, c)
  }

  /** Stores with the same references and the same lookups have the same plain map. */
  lemma SameView(kvs: Kvs, after: Kvs)
    requires forall k: Key :: k.SchemaRef? ==> (k in kvs <==> k in after) && Lookup(after, k) == Lookup(kvs, k)
    ensures View(after) == View(kvs)
  {
  }

  lemma WithContentLookup(kvs: Kvs, tenant: string, c: Content, source: string -> string, k: Key)
    requires ContentsAgree(kvs, source) && c.content == source(c.hash) && k.SchemaRef?
    requires k in kvs ==> SchemaContent(k.tenant, TextAt(kvs, k)) in kvs
    ensures Lookup(WithContent(kvs, tenant, c), k) == Lookup(kvs, k)
  {
  }

  lemma WithContentListed(kvs: Kvs, tenant: string, c: Content)
    requires RefsListed(kvs)
    ensures RefsListed(WithContent(kvs, tenant, c))
  {
    var after := WithContent(kvs, tenant, c);
    forall k | k in after && k.SchemaRef? ensures RefListed(after, k) {
      assert RefListed(kvs, k);
    }
  }

  lemma WithContentInvisible(kvs: Kvs, tenant: string, c: Content, source: string -> string)
    requires RefsResolved(kvs) && ContentsAgree(kvs, source) && c.content == source(c.hash)
    ensures View(WithContent(kvs, tenant, c)) == View(kvs)
  {
    var after := WithContent(kvs, tenant, c);
    forall k: Key | k.SchemaRef? ensures (k in kvs <==> k in after) && Lookup(after, k) == Lookup(kvs, k) {
      WithContentLookup(kvs, tenant, c, source, k);
    }
    SameView(kvs, after);
  }

  lemma WithContentKeeps(kvs: Kvs, tenant: string, c: Content, source: string -> string)
    requires RefsResolved(kvs) && SummariesRefer(kvs) && ContentsAgree(kvs, source) && c.content == source(c.hash)
    ensures var after := WithContent(kvs, tenant, c);
      RefsResolved(after) && SummariesRefer(after) && ContentsAgree(after, source)
  {
  }

  lemma WithRefLookup(kvs: Kvs, tenant: string, serviceId: string, schemaId: string, c: Content, k: Key)
    requires k.SchemaRef?
    ensures Lookup(WithRef(kvs, tenant, serviceId, schemaId, c), k) ==
      if k != SchemaRef(tenant, serviceId, schemaId) then Lookup(kvs, k)
      else if GetContent(kvs, tenant, c.hash).None? then None
      else Some(Stored(GetContent(kvs, tenant, c.hash).value, c.summary))
  {
  }

  lemma WithRefKeeps(kvs: Kvs, tenant: string, serviceId: string, schemaId: string, c: Content,
                     source: string -> string)
    requires RefsResolved(kvs) && ContentsAgree(kvs, source) && SchemaContent(tenant, c.hash) in kvs
    ensures RefsResolved(WithRef(kvs, tenant, serviceId, schemaId, c))
    ensures ContentsAgree(WithRef(kvs, tenant, serviceId, schemaId, c), source)
    ensures SummariesRefer(kvs) ==> SummariesRefer(WithRef(kvs, tenant, serviceId, schemaId, c))
  {
  }

  lemma WithRefRefines(kvs: Kvs, tenant: string, serviceId: string, schemaId: string, c: Content)
    requires RefsResolved(kvs) && GetContent(kvs, tenant, c.hash) == Some(c.content)
    ensures View(WithRef(kvs, tenant, serviceId, schemaId, c)) ==
      View(kvs)[SchemaRef(tenant, serviceId, schemaId) := Stored(c.content, c.summary)]
  {
    var after, refKey := WithRef(kvs, tenant, serviceId, schemaId, c), SchemaRef(tenant, serviceId, schemaId);
    var expected := View(kvs)[refKey := Stored(c.content, c.summary)];
    forall k
      ensures k in View(after) <==> k in expected
      ensures k in View(after) ==> View(after)[k] == expected[k]
    {
      if k.SchemaRef? {
        WithRefLookup(kvs, tenant, serviceId, schemaId, c, k);
      }
    }
  }

  lemma WithRefKeepsListed(kvs: Kvs, tenant: string, serviceId: string, schemaId: string, c: Content)
    requires RefsListed(kvs) && HasRecord(kvs, tenant, serviceId)
    requires schemaId in RecordAt(kvs, tenant, serviceId).schemas
    ensures RefsListed(WithRef(kvs, tenant, serviceId, schemaId, c))
  {
    var after := WithRef(kvs, tenant, serviceId, schemaId, c);
    forall k | k in after && k.SchemaRef? ensures RefListed(after, k) {
      if k in kvs {
        assert RefListed(kvs, k);
      }
    }
  }

  /** Service records are not part of the plain map; only their schema lists matter to the invariant. */
  lemma WithRecordInvisible(kvs: Kvs, tenant: string, r: ServiceRecord, serviceId: string)
    ensures View(WithRecord(kvs, tenant, r, serviceId)) == View(kvs)
  {
    var after := WithRecord(kvs, tenant, r, serviceId);
    forall k: Key | k.SchemaRef? ensures (k in kvs <==> k in after) && Lookup(after, k) == Lookup(kvs, k) {
    }
    SameView(kvs, after);
  }

  lemma WithRecordResolved(kvs: Kvs, tenant: string, r: ServiceRecord, serviceId: string, source: string -> string)
    requires Resolved(kvs, source)
    ensures Resolved(WithRecord(kvs, tenant, r, serviceId), source)
  {
  }

  function PutContentOps(r: ServiceRecord, tenant: string, serviceId: string, schemaId: string, c: Content): seq<Op> {
    [Put(SchemaRef(tenant, serviceId, schemaId), Text(c.hash), 0)] +
    [Put(SchemaSummary(tenant, serviceId, schemaId), Text(c.summary), 0)] +
    if schemaId in r.schemas then []
    else [Put(Service(tenant, serviceId), Record(r.(schemas := r.schemas + [schemaId])), 0)]
  }

  lemma PutContentOpsApply(kvs: Kvs, r: ServiceRecord, tenant: string, serviceId: string, schemaId: string, c: Content)
    requires HasRecord(kvs, tenant, serviceId) && RecordAt(kvs, tenant, serviceId) == r
    ensures
      var ops := PutContentOps(r, tenant, serviceId, schemaId, c);
      var contentOp := Put(SchemaContent(tenant, c.hash), Text(c.content), 0);
      AfterPutContent(kvs, kvs, tenant, serviceId, schemaId, c) ==
        if SchemaContent(tenant, c.hash) in kvs then Apply(ops, kvs) else Apply(ops + [contentOp], kvs)
  {
    var a := Put(SchemaRef(tenant, serviceId, schemaId), Text(c.hash), 0);
    var b := Put(SchemaSummary(tenant, serviceId, schemaId), Text(c.summary), 0);
    var d := Put(Service(tenant, serviceId), Record(r.(schemas := r.schemas + [schemaId])), 0);
    var contentOp := Put(SchemaContent(tenant, c.hash), Text(c.content), 0);
    assert [] + [a] == [a] && [a] + [b] + [] == [a] + [b];
    ApplyAppend([], a, kvs);
    ApplyAppend([a], b, kvs);
    ApplyAppend([a] + [b], d, kvs);
    ApplyAppend(PutContentOps(r, tenant, serviceId, schemaId, c), contentOp, kvs);
  }

  method PutContent(db: Backend, tenant: string, serviceId: string, schemaId: string, c: Content) returns (ok: bool)
    modifies db
    ensures ok == HasRecord(old(db.kvs), tenant, serviceId) && db.leases == old(db.leases)
    ensures db.kvs == AfterPutContent(old(db.kvs), old(db.kvs), tenant, serviceId, schemaId, c)
  {
    if !HasRecord(db.kvs, tenant, serviceId) {
      return false;
    }
    var service := RecordAt(db.kvs, tenant, serviceId);
    var contentKey := SchemaContent(tenant, c.hash);
    var exist := [Put(SchemaRef(tenant, serviceId, schemaId), Text(c.hash), 0),
                  Put(SchemaSummary(tenant, serviceId, schemaId), Text(c.summary), 0)];
    if schemaId !in service.schemas {
      service := service.(schemas := service.schemas + [schemaId]);
      exist := exist + [Put(Service(tenant, serviceId), Record(service), 0)];
    }
    var created := exist + [Put(contentKey, Text(c.content), 0)];
    assert exist == PutContentOps(RecordAt(db.kvs, tenant, serviceId), tenant, serviceId, schemaId, c);
    PutContentOpsApply(db.kvs, RecordAt(db.kvs, tenant, serviceId), tenant, serviceId, schemaId, c);
    ForkedTxn(db.Contents(), created, NotExists(contentKey), exist);
    var _ := db.TxnWithCmp(created, [NotExists(contentKey)], exist);
    return true;
  }

  /** A put is a put on the plain map, however old the record it read is. */
  lemma PutContentRefines(read: Kvs, now: Kvs, tenant: string, serviceId: string, schemaId: string, c: Content,
                          source: string -> string)
    requires Resolved(now, source) && c.content == source(c.hash)
    ensures var after := AfterPutContent(read, now, tenant, serviceId, schemaId, c);
      && Resolved(after, source)
      && View(after) ==
           if HasRecord(read, tenant, serviceId)
           then View(now)[SchemaRef(tenant, serviceId, schemaId) := Stored(c.content, c.summary)]
           else View(now)
  {
    if HasRecord(read, tenant, serviceId) {
      var r := RecordAt(read, tenant, serviceId);
      var filled := if SchemaContent(tenant, c.hash) in now then now else WithContent(now, tenant, c);
      WithContentInvisible(now, tenant, c, source);
      WithContentKeeps(now, tenant, c, source);
      assert Resolved(filled, source) && View(filled) == View(now);
      var longer := r.(schemas := r.schemas + [schemaId]);
      WithRecordInvisible(filled, tenant, longer, serviceId);
      WithRecordResolved(filled, tenant, longer, serviceId, source);
      var listed := if schemaId in r.schemas then filled else WithRecord(filled, tenant, longer, serviceId);
      assert GetContent(listed, tenant, c.hash) == GetContent(filled, tenant, c.hash) == Some(c.content);
      WithRefRefines(listed, tenant, serviceId, schemaId, c);
      WithRefKeeps(listed, tenant, serviceId, schemaId, c, source);
    }
  }

  /** What a put writes besides reference and content: the service lists the schema behind those it listed when it was
      read, in a record with all other fields as they were read; nothing else changes. */
  lemma PutContentStores(read: Kvs, now: Kvs, tenant: string, serviceId: string, schemaId: string, c: Content)
    requires HasRecord(read, tenant, serviceId)
    ensures
      var after, r := AfterPutContent(read, now, tenant, serviceId, schemaId, c), RecordAt(read, tenant, serviceId);
      var key, contentKey := Service(tenant, serviceId), SchemaContent(tenant, c.hash);
      && HasText(after, SchemaRef(tenant, serviceId, schemaId), c.hash)
      && HasText(after, SchemaSummary(tenant, serviceId, schemaId), c.summary)
      && (if contentKey in now then Same(now, after, contentKey) else HasText(after, contentKey, c.content))
      && (if schemaId in r.schemas then Same(now, after, key)
          else
            && HasRecord(after, tenant, serviceId)
            && RecordAt(after, tenant, serviceId).schemas == r.schemas + [schemaId]
            && RecordAt(after, tenant, serviceId).(schemas := []) == r.(schemas := []))
      && var written := {key, contentKey, SchemaRef(tenant, serviceId, schemaId), SchemaSummary(tenant, serviceId, schemaId)};
      forall k :: k !in written ==> Same(now, after, k)
  {
  }

  /** When a put keeps every reference listed: an id the read record lists must still be listed, and a record
      that is written back must list every reference of its service. */
  predicate PutContentFits(read: Kvs, now: Kvs, tenant: string, serviceId: string, schemaId: string) {
    HasRecord(read, tenant, serviceId) ==>
      var r := RecordAt(read, tenant, serviceId);
      if schemaId in r.schemas
      then HasRecord(now, tenant, serviceId) && schemaId in RecordAt(now, tenant, serviceId).schemas
      else OwnRefsIn(now, tenant, serviceId, r.schemas + [schemaId])
  }

  lemma PutContentListsExact(read: Kvs, now: Kvs, tenant: string, serviceId: string, schemaId: string, c: Content)
    requires RefsListed(now)
    ensures RefsListed(AfterPutContent(read, now, tenant, serviceId, schemaId, c))
      <==> PutContentFits(read, now, tenant, serviceId, schemaId)
  {
    if HasRecord(read, tenant, serviceId) {
      var r := RecordAt(read, tenant, serviceId);
      var filled := if SchemaContent(tenant, c.hash) in now then now else WithContent(now, tenant, c);
      WithContentListed(now, tenant, c);
      if schemaId in r.schemas {
        WithRefListsExact(filled, tenant, serviceId, schemaId, c);
      } else {
        var longer := r.(schemas := r.schemas + [schemaId]);
        RewriteWithRefListsExact(filled, tenant, longer, serviceId, schemaId, c);
        assert OwnRefsIn(filled, tenant, serviceId, longer.schemas) <==> OwnRefsIn(now, tenant, serviceId, longer.schemas);
      }
    }
  }

  lemma WithRefListsExact(kvs: Kvs, tenant: string, serviceId: string, schemaId: string, c: Content)
    requires RefsListed(kvs)
    ensures RefsListed(WithRef(kvs, tenant, serviceId, schemaId, c))
      <==> HasRecord(kvs, tenant, serviceId) && schemaId in RecordAt(kvs, tenant, serviceId).schemas
  {
    var after, refKey := WithRef(kvs, tenant, serviceId, schemaId, c), SchemaRef(tenant, serviceId, schemaId);
    if RefsListed(after) {
      assert RefListed(after, refKey);
    }
    if HasRecord(kvs, tenant, serviceId) && schemaId in RecordAt(kvs, tenant, serviceId).schemas {
      WithRefKeepsListed(kvs, tenant, serviceId, schemaId, c);
    }
  }

  lemma RewriteWithRefListsExact(kvs: Kvs, tenant: string, r: ServiceRecord, serviceId: string, schemaId: string,
                                 c: Content)
    requires RefsListed(kvs) && schemaId in r.schemas
    ensures RefsListed(WithRef(WithRecord(kvs, tenant, r, serviceId), tenant, serviceId, schemaId, c))
      <==> OwnRefsIn(kvs, tenant, serviceId, r.schemas)
  {
    var listed := WithRecord(kvs, tenant, r, serviceId);
    RewriteListsExact(kvs, tenant, r, serviceId);
    if RefsListed(listed) {
      WithRefKeepsListed(listed, tenant, serviceId, schemaId, c);
    } else {
      var k :| k in kvs && k.SchemaRef? && Own(k, tenant, serviceId) && k.schemaId !in r.schemas;
      assert !RefListed(WithRef(listed, tenant, serviceId, schemaId, c), k);
    }
  }

  /** Writing a record back keeps every reference listed exactly when it lists the references of its service. */
  lemma RewriteListsExact(kvs: Kvs, tenant: string, r: ServiceRecord, serviceId: string)
    requires RefsListed(kvs)
    ensures RefsListed(WithRecord(kvs, tenant, r, serviceId)) <==> OwnRefsIn(kvs, tenant, serviceId, r.schemas)
  {
    var after := WithRecord(kvs, tenant, r, serviceId);
    forall k | k in kvs && k.SchemaRef?
      ensures RefListed(after, k) <==> !Own(k, tenant, serviceId) || k.schemaId in r.schemas
    {
      assert RefListed(kvs, k);
    }
  }

  /** An old property update also writes an old schema list back. */
  lemma PropertiesListExact(read: Kvs, now: Kvs, tenant: string, serviceId: string, properties: map<string, string>)
    requires RefsListed(now)
    ensures RefsListed(AfterProperties(read, now, tenant, serviceId, properties))
      <==> (HasRecord(read, tenant, serviceId) && Service(tenant, serviceId) in now ==>
              OwnRefsIn(now, tenant, serviceId, RecordAt(read, tenant, serviceId).schemas))
  {
    if HasRecord(read, tenant, serviceId) && Service(tenant, serviceId) in now {
      RewriteListsExact(now, tenant, RecordAt(read, tenant, serviceId).(properties := properties), serviceId);
    }
  }

  /** Without any assumption on hashes: a put is read back exactly when the hash was free or already
      stood for the same content. */
  lemma PutThenLookupExact(kvs: Kvs, tenant: string, serviceId: string, schemaId: string, c: Content)
    requires HasRecord(kvs, tenant, serviceId)
    ensures
      Lookup(AfterPutContent(kvs, kvs, tenant, serviceId, schemaId, c), SchemaRef(tenant, serviceId, schemaId)) ==
        Some(Stored(c.content, c.summary))
      <==> GetContent(kvs, tenant, c.hash) in {None, Some(c.content)}
  {
  }

  function AfterDeleteRef(kvs: Kvs, tenant: string, serviceId: string, schemaId: string): Kvs {
    kvs - {SchemaRef(tenant, serviceId, schemaId), SchemaSummary(tenant, serviceId, schemaId)}
  }

  method DeleteRef(db: Backend, tenant: string, serviceId: string, schemaId: string) returns (ok: bool)
    modifies db
    ensures ok == (SchemaRef(tenant, serviceId, schemaId) in old(db.kvs)) && db.leases == old(db.leases)
    ensures db.kvs == AfterDeleteRef(old(db.kvs), tenant, serviceId, schemaId)
  {
    var refKey := SchemaRef(tenant, serviceId, schemaId);
    var a, b := Delete(refKey), Delete(SchemaSummary(tenant, serviceId, schemaId));
    ApplyAppend([], a, db.kvs);
    ApplyAppend([a], b, db.kvs);
    assert [] + [a] == [a] && [a] + [b] == [a, b];
    ForkedTxn(db.Contents(), [a, b], Exists(refKey), [a, b]);
    var resp := db.TxnWithCmp([a, b], [Exists(refKey)], [a, b]);
    return resp.succeeded;
  }

  lemma DeleteRefLookup(kvs: Kvs, tenant: string, serviceId: string, schemaId: string, k: Key)
    requires k.SchemaRef?
    ensures Lookup(AfterDeleteRef(kvs, tenant, serviceId, schemaId), k) ==
      if k == SchemaRef(tenant, serviceId, schemaId) then None else Lookup(kvs, k)
  {
  }

  lemma DeleteRefRefines(kvs: Kvs, tenant: string, serviceId: string, schemaId: string, source: string -> string)
    requires Resolved(kvs, source)
    ensures var after := AfterDeleteRef(kvs, tenant, serviceId, schemaId);
      Resolved(after, source) && View(after) == View(kvs) - {SchemaRef(tenant, serviceId, schemaId)}
  {
    var after := AfterDeleteRef(kvs, tenant, serviceId, schemaId);
    var expected := View(kvs) - {SchemaRef(tenant, serviceId, schemaId)};
    forall k
      ensures k in View(after) <==> k in expected
      ensures k in View(after) ==> View(after)[k] == expected[k]
    {
      if k.SchemaRef? {
        DeleteRefLookup(kvs, tenant, serviceId, schemaId, k);
      }
    }
  }

  lemma DeleteRefLists(kvs: Kvs, tenant: string, serviceId: string, schemaId: string)
    requires RefsListed(kvs)
    ensures RefsListed(AfterDeleteRef(kvs, tenant, serviceId, schemaId))
  {
    var after := AfterDeleteRef(kvs, tenant, serviceId, schemaId);
    forall k | k in after && k.SchemaRef? ensures RefListed(after, k) {
      assert k in kvs && RefListed(kvs, k);
    }
  }

  // ---------------------------------------------------------------- all schemas of a service

  function PutAll(kvs: Kvs, tenant: string, serviceId: string, ids: seq<string>, contents: seq<Content>): Kvs
    requires |ids| == |contents|
  {
    if ids == [] then kvs
    else
      var n := |ids| - 1;
      var filled := WithContent(PutAll(kvs, tenant, serviceId, ids[..n], contents[..n]), tenant, contents[n]);
      WithRef(filled, tenant, serviceId, ids[n], contents[n])
  }

  predicate Stale(k: Key, tenant: string, serviceId: string, listed: seq<string>, ids: seq<string>) {
    (k.SchemaRef? || k.SchemaSummary?) && Own(k, tenant, serviceId) && k.schemaId in listed && k.schemaId !in ids
  }

  function Pruned(kvs: Kvs, tenant: string, serviceId: string, listed: seq<string>, ids: seq<string>): Kvs {
    map k | k in kvs && !Stale(k, tenant, serviceId, listed, ids) :: kvs[k]
  }

  function AfterPutMany(read: Kvs, now: Kvs, tenant: string, serviceId: string, ids: seq<string>,
                        contents: seq<Content>): Kvs {
    if |ids| != |contents| || !HasRecord(read, tenant, serviceId) then now
    else
      var r := RecordAt(read, tenant, serviceId);
      WithRecord(Pruned(PutAll(now, tenant, serviceId, ids, contents), tenant, serviceId, r.schemas, ids),
                 tenant, r.(schemas := ids), serviceId)
  }

  method PutManyContent(db: Backend, tenant: string, serviceId: string, ids: seq<string>, contents: seq<Content>)
    returns (ok: bool)
    modifies db
    ensures ok == (|ids| == |contents| && HasRecord(old(db.kvs), tenant, serviceId)) && db.leases == old(db.leases)
    ensures db.kvs == AfterPutMany(old(db.kvs), old(db.kvs), tenant, serviceId, ids, contents)
  {
    if |ids| != |contents| || !HasRecord(db.kvs, tenant, serviceId) {
      return false;
    }
    var service := RecordAt(db.kvs, tenant, serviceId);
    var schemaIDs, ops := TransformSchemaIDsAndOptions(db.kvs, tenant, serviceId, service.schemas, ids, contents);
    var op := Put(Service(tenant, serviceId), Record(service.(schemas := schemaIDs)), 0);
    ApplyAppend(ops, op, db.kvs);
    var _ := db.TxnWithCmp(ops + [op], [], []);
    return true;
  }

  /** The operation list for replacing all schemas: three puts per requested schema, then two deletions
      for each listed schema that was not requested. */
  method TransformSchemaIDsAndOptions(ghost kvs: Kvs, tenant: string, serviceId: string, listed: seq<string>,
                                      ids: seq<string>, contents: seq<Content>)
    returns (schemaIDs: seq<string>, ops: seq<Op>)
    requires |ids| == |contents|
    ensures schemaIDs == ids
    ensures forall op :: op in ops ==> !op.Put? || op.lease == 0
    ensures Apply(ops, kvs) == Pruned(PutAll(kvs, tenant, serviceId, ids, contents), tenant, serviceId, listed, ids)
  {
    var pending := set id | id in listed;
    schemaIDs, ops := [], [];
    for i := 0 to |contents|
      invariant schemaIDs == ids[..i] && pending == set id | id in listed && id !in ids[..i]
      invariant forall op :: op in ops ==> !op.Put? || op.lease == 0
      invariant Apply(ops, kvs) == PutAll(kvs, tenant, serviceId, ids[..i], contents[..i])
    {
      var content, schemaID := contents[i], ids[i];
      ghost var before := ops;
      ops := AppendPuts(ops, tenant, serviceId, schemaID, content);
      AppendPutsApply(before, kvs, tenant, serviceId, schemaID, content);
      assert ids[..i + 1][..i] == ids[..i] && contents[..i + 1][..i] == contents[..i];
      schemaIDs := schemaIDs + [schemaID];
      pending := pending - {schemaID};
      assert ids[..i + 1] == ids[..i] + [schemaID];
    }
    assert ids[..|ids|] == ids && contents[..|contents|] == contents;
    ops := AppendDeletions(kvs, ops, tenant, serviceId, pending);
  }

  method AppendDeletions(ghost kvs: Kvs, puts: seq<Op>, tenant: string, serviceId: string, ids: set<string>)
    returns (ops: seq<Op>)
    requires forall op :: op in puts ==> !op.Put? || op.lease == 0
    ensures forall op :: op in ops ==> !op.Put? || op.lease == 0
    ensures Apply(ops, kvs) ==
      map k | k in Apply(puts, kvs) && !DeletedBy(k, tenant, serviceId, ids) :: Apply(puts, kvs)[k]
  {
    ops := puts;
    var pending := ids;
    ghost var base := Apply(puts, kvs);
    while pending != {}
      invariant pending <= ids
      invariant forall op :: op in ops ==> !op.Put? || op.lease == 0
      invariant Apply(ops, kvs) == map k | k in base && !DeletedBy(k, tenant, serviceId, ids - pending) :: base[k]
      decreases pending
    {
      var schemaID :| schemaID in pending;
      var a, b := Delete(SchemaRef(tenant, serviceId, schemaID)), Delete(SchemaSummary(tenant, serviceId, schemaID));
      ApplyAppend(ops, a, kvs);
      ApplyAppend(ops + [a], b, kvs);
      ops := ops + [a] + [b];
      assert ids - (pending - {schemaID}) == (ids - pending) + {schemaID};
      pending := pending - {schemaID};
    }
    assert ids - pending == ids;
  }

  predicate DeletedBy(k: Key, tenant: string, serviceId: string, ids: set<string>) {
    (k.SchemaRef? || k.SchemaSummary?) && Own(k, tenant, serviceId) && k.schemaId in ids
  }

  function AppendPuts(ops: seq<Op>, tenant: string, serviceId: string, schemaId: string, c: Content): seq<Op> {
    ops + [Put(SchemaRef(tenant, serviceId, schemaId), Text(c.hash), 0)] +
    [Put(SchemaContent(tenant, c.hash), Text(c.content), 0)] +
    [Put(SchemaSummary(tenant, serviceId, schemaId), Text(c.summary), 0)]
  }

  lemma AppendPutsApply(ops: seq<Op>, kvs: Kvs, tenant: string, serviceId: string, schemaId: string, c: Content)
    ensures Apply(AppendPuts(ops, tenant, serviceId, schemaId, c), kvs) ==
      WithRef(WithContent(Apply(ops, kvs), tenant, c), tenant, serviceId, schemaId, c)
  {
    var a := Put(SchemaRef(tenant, serviceId, schemaId), Text(c.hash), 0);
    var b := Put(SchemaContent(tenant, c.hash), Text(c.content), 0);
    var d := Put(SchemaSummary(tenant, serviceId, schemaId), Text(c.summary), 0);
    ApplyAppend(ops, a, kvs);
    ApplyAppend(ops + [a], b, kvs);
    ApplyAppend(ops + [a] + [b], d, kvs);
  }

  predicate AllAgree(contents: seq<Content>, source: string -> string) {
    forall i :: 0 <= i < |contents| ==> contents[i].content == source(contents[i].hash)
  }

  lemma {:induction false} PutAllRefines(kvs: Kvs, tenant: string, serviceId: string, ids: seq<string>,
                                         contents: seq<Content>, source: string -> string)
    requires RefsResolved(kvs) && SummariesRefer(kvs) && ContentsAgree(kvs, source)
    requires |ids| == |contents| && AllAgree(contents, source)
    ensures var all := PutAll(kvs, tenant, serviceId, ids, contents);
      && RefsResolved(all) && SummariesRefer(all) && ContentsAgree(all, source)
      && View(all) == PlainPuts(View(kvs), tenant, serviceId, ids, contents)
  {
    if ids != [] {
      var n := |ids| - 1;
      PutAllRefines(kvs, tenant, serviceId, ids[..n], contents[..n], source);
      var prefix := PutAll(kvs, tenant, serviceId, ids[..n], contents[..n]);
      WithContentInvisible(prefix, tenant, contents[n], source);
      WithContentKeeps(prefix, tenant, contents[n], source);
      var filled := WithContent(prefix, tenant, contents[n]);
      WithRefRefines(filled, tenant, serviceId, ids[n], contents[n]);
      WithRefKeeps(filled, tenant, serviceId, ids[n], contents[n], source);
    }
  }

  /** The puts leave service records alone and add references for the requested ids only. */
  lemma {:induction false} PutAllFrame(kvs: Kvs, tenant: string, serviceId: string, ids: seq<string>,
                                       contents: seq<Content>, k: Key)
    requires |ids| == |contents|
    ensures var all := PutAll(kvs, tenant, serviceId, ids, contents);
      && (!SchemaKey(k) ==> (k in all <==> k in kvs) && (k in kvs ==> all[k] == kvs[k]))
      && (k.SchemaRef? ==> (k in all <==> k in kvs || (Own(k, tenant, serviceId) && k.schemaId in ids)))
      && (k.SchemaRef? && k in all ==>
            if Own(k, tenant, serviceId) && k.schemaId in ids then all[k].value.Text? else all[k] == kvs[k])
      && (k in kvs ==> k in all)
      && (k in all && all[k].lease != 0 ==> k in kvs && kvs[k].lease != 0)
  {
    if ids != [] {
      var n := |ids| - 1;
      PutAllFrame(kvs, tenant, serviceId, ids[..n], contents[..n], k);
      assert ids == ids[..n] + [ids[n]];
    }
  }

  lemma {:induction false} PlainPutsAt(m: Plain, base: Plain, tenant: string, serviceId: string, ids: seq<string>,
                                       contents: seq<Content>, k: Key)
    requires |ids| == |contents|
    ensures var puts, others := PlainPuts(m, tenant, serviceId, ids, contents), PlainPuts(base, tenant, serviceId, ids, contents);
      if k.SchemaRef? && Own(k, tenant, serviceId) && k.schemaId in ids
      then k in puts && k in others && puts[k] == others[k]
      else (k in puts <==> k in m) && (k in m ==> puts[k] == m[k])
  {
    if ids != [] {
      var n := |ids| - 1;
      PlainPutsAt(m, base, tenant, serviceId, ids[..n], contents[..n], k);
      assert ids == ids[..n] + [ids[n]];
    }
  }

  lemma PrunedKeeps(kvs: Kvs, tenant: string, serviceId: string, listed: seq<string>, ids: seq<string>,
                    source: string -> string)
    requires RefsResolved(kvs) && SummariesRefer(kvs) && ContentsAgree(kvs, source)
    ensures var after := Pruned(kvs, tenant, serviceId, listed, ids);
      RefsResolved(after) && SummariesRefer(after) && ContentsAgree(after, source)
  {
    var after := Pruned(kvs, tenant, serviceId, listed, ids);
    forall k | k in after && k.SchemaSummary? ensures SchemaRef(k.tenant, k.serviceId, k.schemaId) in after {
      assert k in kvs;
    }
  }

  lemma PrunedLookup(kvs: Kvs, tenant: string, serviceId: string, listed: seq<string>, ids: seq<string>, k: Key)
    requires k.SchemaRef?
    ensures Lookup(Pruned(kvs, tenant, serviceId, listed, ids), k) ==
      if Stale(k, tenant, serviceId, listed, ids) then None else Lookup(kvs, k)
  {
  }

  lemma PrunedView(kvs: Kvs, tenant: string, serviceId: string, listed: seq<string>, ids: seq<string>)
    ensures View(Pruned(kvs, tenant, serviceId, listed, ids)) ==
      map k | k in View(kvs) && !Stale(k, tenant, serviceId, listed, ids) :: View(kvs)[k]
  {
    var after := Pruned(kvs, tenant, serviceId, listed, ids);
    forall k
      ensures k in View(after) <==> k in View(kvs) && !Stale(k, tenant, serviceId, listed, ids)
      ensures k in View(after) ==> View(after)[k] == View(kvs)[k]
    {
      if k.SchemaRef? {
        PrunedLookup(kvs, tenant, serviceId, listed, ids, k);
      }
    }
  }

  /** When replacing all schemas leaves no reference behind: the record that was read must list those that the
      request does not name. */
  predicate PutManyFits(read: Kvs, now: Kvs, tenant: string, serviceId: string, ids: seq<string>, contents: seq<Content>) {
    |ids| == |contents| && HasRecord(read, tenant, serviceId) ==>
      OwnRefsIn(now, tenant, serviceId, RecordAt(read, tenant, serviceId).schemas + ids)
  }

  /** Replacing all schemas of a service replaces its part of the plain map by the requested schemas:
      no reference outlives it and no other service is touched. */
  lemma PutManyRefines(read: Kvs, now: Kvs, tenant: string, serviceId: string, ids: seq<string>, contents: seq<Content>,
                       source: string -> string)
    requires Resolved(now, source) && AllAgree(contents, source)
    ensures var after := AfterPutMany(read, now, tenant, serviceId, ids, contents);
      && Resolved(after, source)
      && (if |ids| == |contents| && HasRecord(read, tenant, serviceId)
          then PutManyFits(read, now, tenant, serviceId, ids, contents) ==>
            && View(after) == PlainPuts(WithoutOwn(View(now), tenant, serviceId), tenant, serviceId, ids, contents)
            && forall x :: SchemaRef(tenant, serviceId, x) in after <==> x in ids
          else after == now)
  {
    if |ids| == |contents| && HasRecord(read, tenant, serviceId) {
      var r := RecordAt(read, tenant, serviceId);
      var all := PutAll(now, tenant, serviceId, ids, contents);
      var pruned := Pruned(all, tenant, serviceId, r.schemas, ids);
      PutAllRefines(now, tenant, serviceId, ids, contents, source);
      PrunedKeeps(all, tenant, serviceId, r.schemas, ids, source);
      PrunedView(all, tenant, serviceId, r.schemas, ids);
      WithRecordResolved(pruned, tenant, r.(schemas := ids), serviceId, source);
      WithRecordInvisible(pruned, tenant, r.(schemas := ids), serviceId);
      if OwnRefsIn(now, tenant, serviceId, r.schemas + ids) {
        PrunedPlain(now, tenant, serviceId, r.schemas, ids, contents);
        PrunedRefs(now, tenant, serviceId, r.schemas, ids, contents);
      }
    }
  }

  lemma PrunedRefs(kvs: Kvs, tenant: string, serviceId: string, listed: seq<string>, ids: seq<string>,
                   contents: seq<Content>)
    requires |ids| == |contents| && OwnRefsIn(kvs, tenant, serviceId, listed + ids)
    ensures var pruned := Pruned(PutAll(kvs, tenant, serviceId, ids, contents), tenant, serviceId, listed, ids);
      forall x :: SchemaRef(tenant, serviceId, x) in pruned <==> x in ids
  {
    var pruned := Pruned(PutAll(kvs, tenant, serviceId, ids, contents), tenant, serviceId, listed, ids);
    forall x ensures SchemaRef(tenant, serviceId, x) in pruned <==> x in ids {
      PutAllFrame(kvs, tenant, serviceId, ids, contents, SchemaRef(tenant, serviceId, x));
    }
  }

  /** Replacing all schemas keeps every reference listed exactly when it leaves none behind. */
  lemma PutManyListsExact(read: Kvs, now: Kvs, tenant: string, serviceId: string, ids: seq<string>,
                          contents: seq<Content>)
    requires RefsListed(now)
    ensures RefsListed(AfterPutMany(read, now, tenant, serviceId, ids, contents))
      <==> PutManyFits(read, now, tenant, serviceId, ids, contents)
  {
    if |ids| == |contents| && HasRecord(read, tenant, serviceId) {
      var after := AfterPutMany(read, now, tenant, serviceId, ids, contents);
      var listed := RecordAt(read, tenant, serviceId).schemas;
      forall k: Key | k.SchemaRef?
        ensures k in after <==> PrunedRef(now, tenant, serviceId, listed, ids, k)
        ensures k in after ==> (RefListed(after, k) <==> !Own(k, tenant, serviceId) || k.schemaId in ids)
      {
        PrunedRefListed(read, now, tenant, serviceId, ids, contents, k);
      }
    }
  }

  /** After a replacement that fits, the service lists exactly the schemas it has references for, in the order of the
      request; all other fields of its record are those of the record that was read. */
  lemma PutManyListStored(read: Kvs, now: Kvs, tenant: string, serviceId: string, ids: seq<string>, contents: seq<Content>)
    requires RefsListed(now) && PutManyFits(read, now, tenant, serviceId, ids, contents)
    requires |ids| == |contents| && HasRecord(read, tenant, serviceId)
    ensures
      var after := AfterPutMany(read, now, tenant, serviceId, ids, contents);
      && HasRecord(after, tenant, serviceId) && RecordAt(after, tenant, serviceId).schemas == ids
      && (forall x :: x in RecordAt(after, tenant, serviceId).schemas <==> SchemaRef(tenant, serviceId, x) in after)
      && RecordAt(after, tenant, serviceId).(schemas := []) == RecordAt(read, tenant, serviceId).(schemas := [])
  {
    var after := AfterPutMany(read, now, tenant, serviceId, ids, contents);
    forall x ensures x in RecordAt(after, tenant, serviceId).schemas <==> SchemaRef(tenant, serviceId, x) in after {
      PrunedRefListed(read, now, tenant, serviceId, ids, contents, SchemaRef(tenant, serviceId, x));
    }
  }

  /** No later schema of the request has this id. */
  predicate LastOfId(ids: seq<string>, i: nat)
    requires i < |ids|
  {
    forall j :: i < j < |ids| ==> ids[j] != ids[i]
  }

  predicate LastOfHash(contents: seq<Content>, i: nat)
    requires i < |contents|
  {
    forall j :: i < j < |contents| ==> contents[j].hash != contents[i].hash
  }

  /** The last schema with an id gives its reference and summary, the last one with a hash its content. */
  lemma {:induction false} PutAllStores(kvs: Kvs, tenant: string, serviceId: string, ids: seq<string>,
                                        contents: seq<Content>, i: nat)
    requires i < |ids| == |contents|
    ensures var all := PutAll(kvs, tenant, serviceId, ids, contents);
      && (LastOfId(ids, i) ==>
            HasText(all, SchemaRef(tenant, serviceId, ids[i]), contents[i].hash) &&
            HasText(all, SchemaSummary(tenant, serviceId, ids[i]), contents[i].summary))
      && (LastOfHash(contents, i) ==> HasText(all, SchemaContent(tenant, contents[i].hash), contents[i].content))
  {
    var n := |ids| - 1;
    if i < n {
      PutAllStores(kvs, tenant, serviceId, ids[..n], contents[..n], i);
    }
  }

  /** Without any assumption on hashes: a replacement overwrites the contents it names, and what is looked up under a
      requested id is its summary with the last content of its hash. */
  lemma PutManyThenLookup(read: Kvs, now: Kvs, tenant: string, serviceId: string, ids: seq<string>,
                          contents: seq<Content>, i: nat, j: nat)
    requires i < |ids| == |contents| && LastOfId(ids, i) && HasRecord(read, tenant, serviceId)
    requires j < |contents| && contents[j].hash == contents[i].hash && LastOfHash(contents, j)
    ensures Lookup(AfterPutMany(read, now, tenant, serviceId, ids, contents), SchemaRef(tenant, serviceId, ids[i])) ==
      Some(Stored(contents[j].content, contents[i].summary))
  {
    PutAllStores(now, tenant, serviceId, ids, contents, i);
    PutAllStores(now, tenant, serviceId, ids, contents, j);
    var after := AfterPutMany(read, now, tenant, serviceId, ids, contents);
    assert GetContent(after, tenant, contents[j].hash) == Some(contents[j].content);
  }

  predicate PrunedRef(kvs: Kvs, tenant: string, serviceId: string, listed: seq<string>, ids: seq<string>, k: Key)
    requires k.SchemaRef?
  {
    if Own(k, tenant, serviceId) then k.schemaId in ids || (k in kvs && k.schemaId !in listed) else k in kvs
  }

  lemma PrunedRefListed(read: Kvs, now: Kvs, tenant: string, serviceId: string, ids: seq<string>,
                        contents: seq<Content>, k: Key)
    requires RefsListed(now) && |ids| == |contents| && HasRecord(read, tenant, serviceId) && k.SchemaRef?
    ensures var after := AfterPutMany(read, now, tenant, serviceId, ids, contents);
      && (k in after <==> PrunedRef(now, tenant, serviceId, RecordAt(read, tenant, serviceId).schemas, ids, k))
      && (k in after ==> (RefListed(after, k) <==> !Own(k, tenant, serviceId) || k.schemaId in ids))
  {
    PutAllFrame(now, tenant, serviceId, ids, contents, k);
    PutAllFrame(now, tenant, serviceId, ids, contents, Service(k.tenant, k.serviceId));
    if k in now {
      assert RefListed(now, k);
    }
  }

  lemma PrunedPlain(kvs: Kvs, tenant: string, serviceId: string, listed: seq<string>, ids: seq<string>,
                    contents: seq<Content>)
    requires |ids| == |contents| && OwnRefsIn(kvs, tenant, serviceId, listed + ids)
    ensures
      var puts := PlainPuts(View(kvs), tenant, serviceId, ids, contents);
      (map k | k in puts && !Stale(k, tenant, serviceId, listed, ids) :: puts[k]) ==
        PlainPuts(WithoutOwn(View(kvs), tenant, serviceId), tenant, serviceId, ids, contents)
  {
    var base := WithoutOwn(View(kvs), tenant, serviceId);
    var puts := PlainPuts(View(kvs), tenant, serviceId, ids, contents);
    var expected := PlainPuts(base, tenant, serviceId, ids, contents);
    forall k
      ensures k in puts && !Stale(k, tenant, serviceId, listed, ids) <==> k in expected
      ensures k in expected ==> puts[k] == expected[k]
    {
      PlainPutsAt(View(kvs), base, tenant, serviceId, ids, contents, k);
      PlainPutsAt(base, View(kvs), tenant, serviceId, ids, contents, k);
    }
  }

  // ---------------------------------------------------------------- collectors

  predicate Referenced(kvs: Kvs, tenant: string, hash: string) {
    exists k :: k in kvs && k.SchemaRef? && k.tenant == tenant && TextAt(kvs, k) == hash
  }

  function AfterDeleteContent(read: Kvs, now: Kvs, tenant: string, hash: string): Kvs {
    if Referenced(read, tenant, hash) then now else now - {SchemaContent(tenant, hash)}
  }

  datatype DeleteContentResult = ContentDeleted | HasReference | ContentNotFound

  method DeleteContent(db: Backend, tenant: string, hash: string) returns (r: DeleteContentResult)
    modifies db
    ensures db.kvs == AfterDeleteContent(old(db.kvs), old(db.kvs), tenant, hash) && db.leases == old(db.leases)
    ensures r == if Referenced(old(db.kvs), tenant, hash) then HasReference
                 else if SchemaContent(tenant, hash) in old(db.kvs) then ContentDeleted else ContentNotFound
  {
    var hashes := {};
    var todo := set k | k in db.kvs && k.SchemaRef? && k.tenant == tenant;
    ghost var refs := todo;
    while todo != {}
      invariant todo <= refs && unchanged(db)
      invariant forall h :: h in hashes <==> exists k :: k in refs - todo && TextAt(db.kvs, k) == h
      decreases todo
    {
      var k :| k in todo;
      ghost var before := hashes;
      hashes := hashes + {TextAt(db.kvs, k)};
      assert refs - (todo - {k}) == (refs - todo) + {k};
      todo := todo - {k};
    }
    assert refs - todo == refs;
    assert hash in hashes <==> Referenced(db.kvs, tenant, hash);
    if hash in hashes {
      return HasReference;
    }
    var op := Delete(SchemaContent(tenant, hash));
    ApplyAppend([], op, db.kvs);
    assert [] + [op] == [op];
    GuardedTxn(db.Contents(), [op], Exists(op.key));
    var resp := db.TxnWithCmp([op], [Exists(op.key)], []);
    return if resp.succeeded then ContentDeleted else ContentNotFound;
  }

  /** Some reference names this content, by the tenant that is read from its key. */
  predicate Named(kvs: Kvs, tenant: string, hash: string) {
    exists k :: k in kvs && k.SchemaRef? && P.ReadTenant(k) == tenant && TextAt(kvs, k) == hash
  }

  /** The contents listed on `listed` that no reference listed on `refs` names, in every tenant. */
  function Garbage(listed: Kvs, refs: Kvs): set<Key> {
    set k | k in listed && k.SchemaContent? && !Named(refs, k.tenant, k.hash)
  }

  function NamedBy(kvs: Kvs, k: Key): Key
    requires k in kvs && k.SchemaRef?
  {
    SchemaContent(P.ReadTenant(k), TextAt(kvs, k))
  }

  /** The contents that none of these references names. */
  function Unnamed(listed: Kvs, refs: Kvs, keys: set<Key>): set<Key>
    requires forall k :: k in keys ==> k in refs && k.SchemaRef?
  {
    set m | m in listed && m.SchemaContent? && forall k :: k in keys ==> m != NamedBy(refs, k)
  }

  lemma UnnamedAppend(listed: Kvs, refs: Kvs, keys: set<Key>, k: Key)
    requires (forall m :: m in keys ==> m in refs && m.SchemaRef?) && k in refs && k.SchemaRef?
    ensures Unnamed(listed, refs, keys + {k}) == Unnamed(listed, refs, keys) - {NamedBy(refs, k)}
  {
  }

  lemma UnnamedIsGarbage(listed: Kvs, refs: Kvs)
    ensures Unnamed(listed, refs, set k | k in refs && k.SchemaRef?) == Garbage(listed, refs)
  {
    var keys := set k | k in refs && k.SchemaRef?;
    forall m | m in listed && m.SchemaContent? ensures m in Unnamed(listed, refs, keys) <==> m in Garbage(listed, refs) {
      if Named(refs, m.tenant, m.hash) {
        var k :| k in refs && k.SchemaRef? && P.ReadTenant(k) == m.tenant && TextAt(refs, k) == m.hash;
        assert k in keys && m == NamedBy(refs, k);
      }
    }
  }

  /** `listed` is the store the contents were listed on, `refs` the one the references are listed on. */
  method FilterNoRefContentHashes(listed: Kvs, refs: Kvs) returns (garbage: set<Key>)
    ensures garbage == Garbage(listed, refs)
  {
    garbage := set k | k in listed && k.SchemaContent?;
    var todo := set k | k in refs && k.SchemaRef?;
    ghost var keys := todo;
    while todo != {}
      invariant todo <= keys && garbage == Unnamed(listed, refs, keys - todo)
      decreases todo
    {
      var k :| k in todo;
      UnnamedAppend(listed, refs, keys - todo, k);
      assert keys - (todo - {k}) == (keys - todo) + {k};
      garbage := garbage - {NamedBy(refs, k)};
      todo := todo - {k};
    }
    assert keys - todo == keys;
    UnnamedIsGarbage(listed, refs);
  }

  method DeleteNoRefContents(db: Backend) returns (n: nat)
    modifies db
    ensures db.kvs == old(db.kvs) - Garbage(old(db.kvs), old(db.kvs)) && db.leases == old(db.leases)
    ensures n == |Garbage(old(db.kvs), old(db.kvs))|
  {
    var garbage := FilterNoRefContentHashes(db.kvs, db.kvs);
    var ops := DeleteOps(db.kvs, garbage);
    var _ := db.TxnWithCmp(ops, [], []);
    n := |ops|;
  }

  method DeleteOps(kvs: Kvs, keys: set<Key>) returns (ops: seq<Op>)
    ensures forall op :: op in ops ==> op.Delete?
    ensures |ops| == |keys| && Apply(ops, kvs) == kvs - keys
  {
    ops := [];
    var todo := keys;
    while todo != {}
      invariant todo <= keys && Apply(ops, kvs) == kvs - (keys - todo) && |ops| == |keys - todo|
      invariant forall op :: op in ops ==> op.Delete?
      decreases todo
    {
      var k :| k in todo;
      ApplyAppend(ops, Delete(k), kvs);
      ops := ops + [Delete(k)];
      DropOneMore(kvs, keys, todo, k);
      todo := todo - {k};
    }
    assert keys - todo == keys;
  }

  lemma DropOneMore(kvs: Kvs, keys: set<Key>, todo: set<Key>, k: Key)
    requires k in todo && todo <= keys
    ensures kvs - (keys - (todo - {k})) == (kvs - (keys - todo)) - {k}
    ensures |keys - (todo - {k})| == |keys - todo| + 1
  {
    assert keys - (todo - {k}) == (keys - todo) + {k};
  }

  lemma CollectLookup(kvs: Kvs, garbage: set<Key>, k: Key)
    requires forall g :: g in garbage ==> g.SchemaContent? && !Referenced(kvs, g.tenant, g.hash)
    requires k.SchemaRef?
    ensures Lookup(kvs - garbage, k) == Lookup(kvs, k)
  {
    if k in kvs {
      assert Referenced(kvs, k.tenant, TextAt(kvs, k));
    }
  }

  /** Removing contents that nothing refers to cannot be seen through the plain map. */
  lemma CollectInvisible(kvs: Kvs, garbage: set<Key>, source: string -> string)
    requires Resolved(kvs, source)
    requires forall k :: k in garbage ==> k.SchemaContent? && !Referenced(kvs, k.tenant, k.hash)
    ensures Resolved(kvs - garbage, source) && View(kvs - garbage) == View(kvs)
  {
    var after := kvs - garbage;
    forall k: Key | k.SchemaRef? ensures (k in kvs <==> k in after) && Lookup(after, k) == Lookup(kvs, k) {
      CollectLookup(kvs, garbage, k);
    }
    SameView(kvs, after);
    CollectResolvesExact(kvs, garbage);
  }

  lemma CollectLists(kvs: Kvs, garbage: set<Key>)
    requires RefsListed(kvs) && forall k :: k in garbage ==> k.SchemaContent?
    ensures RefsListed(kvs - garbage)
  {
    var after := kvs - garbage;
    forall k | k in after && k.SchemaRef? ensures RefListed(after, k) {
      assert k in kvs && RefListed(kvs, k);
    }
  }

  /** Dropping contents keeps every reference resolved exactly when none of them is referred to. */
  lemma CollectResolvesExact(kvs: Kvs, garbage: set<Key>)
    requires RefsResolved(kvs) && forall k :: k in garbage ==> k.SchemaContent?
    ensures RefsResolved(kvs - garbage) <==> forall k :: k in garbage ==> !Referenced(kvs, k.tenant, k.hash)
  {
    var after := kvs - garbage;
    forall k | k in garbage && Referenced(kvs, k.tenant, k.hash) ensures !RefsResolved(after) {
      var m :| m in kvs && m.SchemaRef? && m.tenant == k.tenant && TextAt(kvs, m) == k.hash;
      assert m in after && SchemaContent(m.tenant, TextAt(after, m)) == k;
    }
    if forall k :: k in garbage ==> !Referenced(kvs, k.tenant, k.hash) {
      forall k | k in after && k.SchemaRef? ensures SchemaContent(k.tenant, TextAt(after, k)) in after {
        assert Referenced(kvs, k.tenant, TextAt(kvs, k));
      }
    }
  }

  /** With contents and references listed at different times, in either order, the collector of all contents keeps
      every reference resolved exactly when none of the contents it drops is referred to when it commits. */
  lemma CollectExact(listed: Kvs, refs: Kvs, now: Kvs)
    requires RefsResolved(now)
    ensures RefsResolved(now - Garbage(listed, refs))
      <==> forall k :: k in Garbage(listed, refs) ==> !Referenced(now, k.tenant, k.hash)
  {
    CollectResolvesExact(now, Garbage(listed, refs));
  }

  /** On its own it keeps every reference resolved exactly when every content referred to is also named by a
      reference whose key is read back under the tenant of that content. */
  lemma CollectAloneExact(kvs: Kvs)
    requires RefsResolved(kvs)
    ensures RefsResolved(kvs - Garbage(kvs, kvs))
      <==> forall k :: k in kvs && k.SchemaRef? ==> Named(kvs, k.tenant, TextAt(kvs, k))
  {
    CollectExact(kvs, kvs, kvs);
    forall k | k in Garbage(kvs, kvs) && Referenced(kvs, k.tenant, k.hash)
      ensures exists m :: m in kvs && m.SchemaRef? && !Named(kvs, m.tenant, TextAt(kvs, m))
    {
      var m :| m in kvs && m.SchemaRef? && m.tenant == k.tenant && TextAt(kvs, m) == k.hash;
      assert !Named(kvs, m.tenant, TextAt(kvs, m));
    }
    forall k | k in kvs && k.SchemaRef? && !Named(kvs, k.tenant, TextAt(kvs, k))
      ensures SchemaContent(k.tenant, TextAt(kvs, k)) in Garbage(kvs, kvs) && Referenced(kvs, k.tenant, TextAt(kvs, k))
    {
    }
  }

  /** What the collector leaves: with references that are read back under their own tenant, a listed content stays
      exactly when some listed reference of its tenant names it, and nothing else goes. */
  lemma CollectedExact(listed: Kvs, refs: Kvs, now: Kvs, k: Key)
    requires forall m :: m in refs && m.SchemaRef? ==> P.ReadTenant(m) == m.tenant
    ensures k in now - Garbage(listed, refs) <==>
      k in now && (k.SchemaContent? && k in listed ==> Referenced(refs, k.tenant, k.hash))
  {
    if k.SchemaContent? && Named(refs, k.tenant, k.hash) {
      var m :| m in refs && m.SchemaRef? && P.ReadTenant(m) == k.tenant && TextAt(refs, m) == k.hash;
      assert Referenced(refs, k.tenant, k.hash);
    }
  }

  /** Deleting one content keeps every reference resolved exactly when it was refused, or nothing refers to the
      content when the deletion commits. */
  lemma DeleteContentExact(read: Kvs, now: Kvs, tenant: string, hash: string)
    requires RefsResolved(now)
    ensures RefsResolved(AfterDeleteContent(read, now, tenant, hash))
      <==> Referenced(read, tenant, hash) || !Referenced(now, tenant, hash)
  {
    if !Referenced(read, tenant, hash) {
      CollectResolvesExact(now, {SchemaContent(tenant, hash)});
    }
  }

  lemma DeleteContentInvisible(read: Kvs, now: Kvs, tenant: string, hash: string, source: string -> string)
    requires Resolved(now, source) && (Referenced(read, tenant, hash) || !Referenced(now, tenant, hash))
    ensures var after := AfterDeleteContent(read, now, tenant, hash);
      Resolved(after, source) && View(after) == View(now)
  {
    if !Referenced(read, tenant, hash) {
      CollectInvisible(now, {SchemaContent(tenant, hash)}, source);
    }
  }

  // ---------------------------------------------------------------- steps of the registry

  ghost predicate SameSchemaKeys(kvs: Kvs, after: Kvs) {
    forall k: Key :: SchemaKey(k) ==> (k in kvs <==> k in after) && (k in kvs ==> kvs[k].value == after[k].value)
  }

  lemma SameSchemaKeysSameView(kvs: Kvs, after: Kvs)
    requires SameSchemaKeys(kvs, after)
    ensures View(after) == View(kvs)
  {
    forall k: Key | k.SchemaRef? ensures Lookup(after, k) == Lookup(kvs, k) && (k in kvs <==> k in after) {
      assert SchemaKey(SchemaSummary(k.tenant, k.serviceId, k.schemaId));
      if k in kvs {
        assert SchemaKey(SchemaContent(k.tenant, TextAt(kvs, k)));
      }
    }
    SameView(kvs, after);
  }

  /** Steps that change no schema key cannot be seen. */
  lemma SameSchemaKeysKeep(kvs: Kvs, after: Kvs, source: string -> string)
    requires Resolved(kvs, source) && SameSchemaKeys(kvs, after)
    ensures Resolved(after, source) && View(after) == View(kvs)
  {
    SameSchemaKeysSameView(kvs, after);
    SameSchemaKeysResolve(kvs, after);
    forall k | k in after && k.SchemaSummary? ensures SchemaRef(k.tenant, k.serviceId, k.schemaId) in after {
      assert k in kvs && SchemaKey(SchemaRef(k.tenant, k.serviceId, k.schemaId));
    }
  }

  lemma SameSchemaKeysResolve(kvs: Kvs, after: Kvs)
    requires RefsResolved(kvs) && SameSchemaKeys(kvs, after)
    ensures RefsResolved(after)
  {
    forall k | k in after && k.SchemaRef? ensures SchemaContent(k.tenant, TextAt(after, k)) in after {
      assert k in kvs && SchemaKey(SchemaContent(k.tenant, TextAt(kvs, k)));
    }
  }

  /** References stay listed when no service record is lost or changed. */
  lemma SameRecordsList(kvs: Kvs, after: Kvs)
    requires RefsListed(kvs)
    requires forall k :: k in after && k.SchemaRef? ==> k in kvs && after[k].value == kvs[k].value
    requires forall k :: k in kvs && k.Service? ==> k in after && after[k].value == kvs[k].value
    ensures RefsListed(after)
  {
    forall k | k in after && k.SchemaRef? ensures RefListed(after, k) {
      assert RefListed(kvs, k);
    }
  }

  lemma RemovedLookup(kvs: Kvs, tenant: string, serviceId: string, r: ServiceRecord, k: Key)
    requires k.SchemaRef?
    ensures Lookup(Removed(kvs, tenant, serviceId, r), k) == if Below(k, tenant, serviceId) then None else Lookup(kvs, k)
  {
  }

  lemma RemovedView(kvs: Kvs, tenant: string, serviceId: string, r: ServiceRecord)
    ensures View(Removed(kvs, tenant, serviceId, r)) == Without(View(kvs), tenant, serviceId)
  {
    var after, expected := Removed(kvs, tenant, serviceId, r), Without(View(kvs), tenant, serviceId);
    forall k
      ensures k in View(after) <==> k in expected
      ensures k in View(after) ==> View(after)[k] == expected[k]
    {
      if k.SchemaRef? {
        RemovedLookup(kvs, tenant, serviceId, r, k);
      }
    }
  }

  lemma RemovedLists(kvs: Kvs, tenant: string, serviceId: string, r: ServiceRecord)
    requires RefsListed(kvs)
    ensures RefsListed(Removed(kvs, tenant, serviceId, r))
  {
    var after := Removed(kvs, tenant, serviceId, r);
    forall k | k in after && k.SchemaRef? ensures RefListed(after, k) {
      assert k in kvs && RefListed(kvs, k);
    }
  }

  lemma RemovedResolves(kvs: Kvs, tenant: string, serviceId: string, r: ServiceRecord)
    requires RefsResolved(kvs)
    ensures RefsResolved(Removed(kvs, tenant, serviceId, r))
  {
    var after := Removed(kvs, tenant, serviceId, r);
    forall k | k in after && k.SchemaRef? ensures SchemaContent(k.tenant, TextAt(after, k)) in after {
      assert k in kvs;
    }
  }

  /** Unregistering a service takes what its prefix finds out of the plain map. */
  lemma RemovedRefines(kvs: Kvs, tenant: string, serviceId: string, r: ServiceRecord, source: string -> string)
    requires Resolved(kvs, source)
    ensures var after := Removed(kvs, tenant, serviceId, r);
      Resolved(after, source) && View(after) == Without(View(kvs), tenant, serviceId)
  {
    var after := Removed(kvs, tenant, serviceId, r);
    RemovedView(kvs, tenant, serviceId, r);
    RemovedResolves(kvs, tenant, serviceId, r);
    forall k | k in after && k.SchemaSummary? ensures SchemaRef(k.tenant, k.serviceId, k.schemaId) in after {
      assert k in kvs;
    }
  }
}
