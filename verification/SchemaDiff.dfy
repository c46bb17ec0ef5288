/** The legacy schema interface: a request is compared with the stored schemas, and the differences become
    the puts and deletions of one transaction. */
module SchemaDiff {
  import opened Etcd
  import opened Services

  datatype Doc = Doc(schemaId: string, schema: string, summary: string)

  function Ids(docs: seq<Doc>): set<string> {
    set d | d in docs :: d.schemaId
  }

  predicate DistinctIds(docs: seq<Doc>) {
    forall i, j :: 0 <= i < j < |docs| ==> docs[i].schemaId != docs[j].schemaId
  }

  /** The documents whose id did not occur before. */
  function Firsts(docs: seq<Doc>): seq<Doc> {
    if docs == [] then []
    else
      var init, last := docs[..|docs| - 1], docs[|docs| - 1];
      if last.schemaId in Ids(init) then Firsts(init) else Firsts(init) + [last]
  }

  function In(docs: seq<Doc>, ids: set<string>): seq<Doc> {
    if docs == [] then []
    else
      var init, last := docs[..|docs| - 1], docs[|docs| - 1];
      if last.schemaId in ids then In(init, ids) + [last] else In(init, ids)
  }

  function NotIn(docs: seq<Doc>, ids: set<string>): seq<Doc> {
    if docs == [] then []
    else
      var init, last := docs[..|docs| - 1], docs[|docs| - 1];
      if last.schemaId in ids then NotIn(init, ids) else NotIn(init, ids) + [last]
  }

  function IdList(docs: seq<Doc>): seq<string> {
    if docs == [] then [] else IdList(docs[..|docs| - 1]) + [docs[|docs| - 1].schemaId]
  }

  function SetOf(ids: seq<string>): set<string> {
    set id | id in ids
  }

  /** Request documents to update, to add, stored documents to delete, and requested ids the service does
      not list. Of several request documents with one id the first counts. */
  method SchemasAnalysis(schemas: seq<Doc>, fromDb: seq<Doc>, idsInService: seq<string>)
    returns (update: seq<Doc>, add: seq<Doc>, delete: seq<Doc>, nonExist: seq<string>)
    ensures update == In(Firsts(schemas), Ids(fromDb))
    ensures add == NotIn(Firsts(schemas), Ids(fromDb))
    ensures delete == NotIn(fromDb, Ids(schemas))
    ensures nonExist == IdList(NotIn(Firsts(schemas), SetOf(idsInService)))
  {
    var lists := Lists({}, [], [], []);
    for i := 0 to |schemas|
      invariant Analysed(lists, schemas[..i], fromDb, idsInService)
    {
      assert schemas[..i + 1] == schemas[..i] + [schemas[i]];
      lists := AnalyseOne(lists, schemas[i], fromDb, idsInService, schemas[..i]);
    }
    assert schemas[..|schemas|] == schemas;
    update, add, nonExist := lists.update, lists.add, lists.nonExist;
    delete := SchemasToDelete(schemas, fromDb);
  }

  /** The variables of the loop over the request. */
  datatype Lists = Lists(duplicate: set<string>, update: seq<Doc>, add: seq<Doc>, nonExist: seq<string>)

  ghost predicate Analysed(lists: Lists, schemas: seq<Doc>, fromDb: seq<Doc>, idsInService: seq<string>) {
    lists.duplicate == Ids(schemas) && Classified(lists, Firsts(schemas), fromDb, idsInService)
  }

  ghost predicate Classified(lists: Lists, firsts: seq<Doc>, fromDb: seq<Doc>, idsInService: seq<string>) {
    && lists.update == In(firsts, Ids(fromDb))
    && lists.add == NotIn(firsts, Ids(fromDb))
    && lists.nonExist == IdList(NotIn(firsts, SetOf(idsInService)))
  }

  /** The body of the loop. */
  method AnalyseOne(lists: Lists, schema: Doc, fromDb: seq<Doc>, idsInService: seq<string>, ghost before: seq<Doc>)
    returns (after: Lists)
    requires Analysed(lists, before, fromDb, idsInService)
    ensures Analysed(after, before + [schema], fromDb, idsInService)
  {
    FirstsAppend(before, schema);
    if schema.schemaId in lists.duplicate {
      return lists;
    }
    after := Classify(lists, schema, fromDb, idsInService, Firsts(before));
    after := after.(duplicate := lists.duplicate + {schema.schemaId});
  }

  method Classify(lists: Lists, schema: Doc, fromDb: seq<Doc>, idsInService: seq<string>, ghost firsts: seq<Doc>)
    returns (after: Lists)
    requires Classified(lists, firsts, fromDb, idsInService)
    ensures Classified(after, firsts + [schema], fromDb, idsInService)
  {
    FilterAppend(firsts, schema, Ids(fromDb));
    FilterAppend(firsts, schema, SetOf(idsInService));
    IdListAppend(NotIn(firsts, SetOf(idsInService)), schema);
    var exist := HasId(fromDb, schema.schemaId);
    if exist {
      after := lists.(update := lists.update + [schema]);
    } else {
      after := lists.(add := lists.add + [schema]);
    }
    exist := HasString(idsInService, schema.schemaId);
    if !exist {
      after := after.(nonExist := lists.nonExist + [schema.schemaId]);
    }
  }

  lemma {:induction false} IdListAppend(docs: seq<Doc>, d: Doc)
    ensures IdList(docs + [d]) == IdList(docs) + [d.schemaId]
  {
    assert (docs + [d])[..|docs|] == docs;
  }

  method SchemasToDelete(schemas: seq<Doc>, fromDb: seq<Doc>) returns (delete: seq<Doc>)
    ensures delete == NotIn(fromDb, Ids(schemas))
  {
    delete := [];
    for i := 0 to |fromDb|
      invariant delete == NotIn(fromDb[..i], Ids(schemas))
    {
      assert fromDb[..i + 1] == fromDb[..i] + [fromDb[i]];
      FilterAppend(fromDb[..i], fromDb[i], Ids(schemas));
      var exist := HasId(schemas, fromDb[i].schemaId);
      if !exist {
        delete := delete + [fromDb[i]];
      }
    }
    assert fromDb[..|fromDb|] == fromDb;
  }

  method HasId(docs: seq<Doc>, id: string) returns (exist: bool)
    ensures exist <==> id in Ids(docs)
  {
    exist := false;
    for i := 0 to |docs|
      invariant id !in Ids(docs[..i])
    {
      if docs[i].schemaId == id {
        assert docs[i] in docs;
        return true;
      }
      assert docs[..i + 1] == docs[..i] + [docs[i]];
    }
    assert docs[..|docs|] == docs;
  }

  method HasString(list: seq<string>, id: string) returns (exist: bool)
    ensures exist <==> id in list
  {
    exist := false;
    for j := 0 to |list|
      invariant exist <==> id in list[..j]
    {
      if id == list[j] {
        exist := true;
      }
    }
  }

  lemma {:induction false} FirstsAppend(docs: seq<Doc>, d: Doc)
    ensures Firsts(docs + [d]) == if d.schemaId in Ids(docs) then Firsts(docs) else Firsts(docs) + [d]
    ensures Ids(docs + [d]) == Ids(docs) + {d.schemaId}
  {
    assert (docs + [d])[..|docs|] == docs;
    assert forall e :: e in docs + [d] <==> e in docs || e == d;
    assert d in docs + [d];
    forall id | id in Ids(docs) + {d.schemaId} ensures id in Ids(docs + [d]) {
    }
  }

  lemma {:induction false} FilterAppend(docs: seq<Doc>, d: Doc, ids: set<string>)
    ensures In(docs + [d], ids) == if d.schemaId in ids then In(docs, ids) + [d] else In(docs, ids)
    ensures NotIn(docs + [d], ids) == if d.schemaId in ids then NotIn(docs, ids) else NotIn(docs, ids) + [d]
  {
    assert (docs + [d])[..|docs|] == docs;
  }

  // ---------------------------------------------------------------- facts about the lists

  lemma {:induction false} FirstsFacts(docs: seq<Doc>)
    ensures Ids(Firsts(docs)) == Ids(docs) && DistinctIds(Firsts(docs))
    ensures forall d :: d in Firsts(docs) ==> d in docs
  {
    if docs != [] {
      var init, last := docs[..|docs| - 1], docs[|docs| - 1];
      assert docs == init + [last];
      FirstsFacts(init);
      FirstsAppend(init, last);
      if last.schemaId !in Ids(init) {
        FirstsAppend(Firsts(init), last);
        DistinctAppend(Firsts(init), last);
      }
    }
  }

  lemma DistinctAppend(docs: seq<Doc>, d: Doc)
    requires DistinctIds(docs) && d.schemaId !in Ids(docs)
    ensures DistinctIds(docs + [d])
  {
    forall i | 0 <= i < |docs| ensures docs[i].schemaId != d.schemaId {
      assert docs[i] in docs;
    }
  }

  lemma {:induction false} FilterFacts(docs: seq<Doc>, ids: set<string>)
    ensures forall d :: d in In(docs, ids) <==> d in docs && d.schemaId in ids
    ensures forall d :: d in NotIn(docs, ids) <==> d in docs && d.schemaId !in ids
    ensures |In(docs, ids)| + |NotIn(docs, ids)| == |docs|
    ensures DistinctIds(docs) ==> DistinctIds(In(docs, ids)) && DistinctIds(NotIn(docs, ids))
  {
    FilterMembers(docs, ids);
    if DistinctIds(docs) {
      FilterDistinct(docs, ids);
    }
  }

  lemma {:induction false} FilterMembers(docs: seq<Doc>, ids: set<string>)
    ensures forall d :: d in In(docs, ids) <==> d in docs && d.schemaId in ids
    ensures forall d :: d in NotIn(docs, ids) <==> d in docs && d.schemaId !in ids
    ensures |In(docs, ids)| + |NotIn(docs, ids)| == |docs|
  {
    if docs != [] {
      var init, last := docs[..|docs| - 1], docs[|docs| - 1];
      assert docs == init + [last];
      FilterMembers(init, ids);
      FilterAppend(init, last, ids);
    }
  }

  lemma {:induction false} FilterDistinct(docs: seq<Doc>, ids: set<string>)
    requires DistinctIds(docs)
    ensures DistinctIds(In(docs, ids)) && DistinctIds(NotIn(docs, ids))
  {
    if docs != [] {
      var init, last := docs[..|docs| - 1], docs[|docs| - 1];
      assert docs == init + [last];
      FilterDistinct(init, ids);
      FilterMembers(init, ids);
      FilterAppend(init, last, ids);
      forall d | d in init ensures d.schemaId != last.schemaId {
      }
      if last.schemaId in ids {
        DistinctAppend(In(init, ids), last);
      } else {
        DistinctAppend(NotIn(init, ids), last);
      }
    }
  }

  /** The lists keep the order of the request: a longer request only adds behind what a shorter one gives. */
  lemma {:induction false} ListsGrow(docs: seq<Doc>, i: nat, ids: set<string>)
    requires i <= |docs|
    ensures Firsts(docs[..i]) <= Firsts(docs) && In(docs[..i], ids) <= In(docs, ids) && NotIn(docs[..i], ids) <= NotIn(docs, ids)
  {
    if i < |docs| {
      var init := docs[..|docs| - 1];
      assert init[..i] == docs[..i];
      ListsGrow(init, i, ids);
    } else {
      assert docs[..i] == docs;
    }
  }

  lemma {:induction false} DistinctCount(docs: seq<Doc>)
    requires DistinctIds(docs)
    ensures |Ids(docs)| == |docs|
  {
    if docs != [] {
      var init, last := docs[..|docs| - 1], docs[|docs| - 1];
      assert docs == init + [last];
      DistinctCount(init);
      FirstsAppend(init, last);
    }
  }

  // ---------------------------------------------------------------- the transaction

  /** The schema ids stored for the service itself. */
  function StoredIds(kvs: Kvs, tenant: string, serviceId: string): set<string> {
    set k | k in kvs && k.Schema? && Own(k, tenant, serviceId) :: k.schemaId
  }

  /** The schema keys that a search by the prefix of the service finds. */
  function ListedKeys(kvs: Kvs, tenant: string, serviceId: string): set<Key> {
    set k | k in kvs && Covers(Schemas, tenant, serviceId, k)
  }

  function ListedIds(kvs: Kvs, tenant: string, serviceId: string): set<string> {
    set k | k in ListedKeys(kvs, tenant, serviceId) :: k.schemaId
  }

  function Additions(kvs: Kvs, tenant: string, serviceId: string, docs: seq<Doc>): seq<Doc> {
    NotIn(Firsts(docs), ListedIds(kvs, tenant, serviceId))
  }

  function Updates(kvs: Kvs, tenant: string, serviceId: string, docs: seq<Doc>): seq<Doc> {
    In(Firsts(docs), ListedIds(kvs, tenant, serviceId))
  }

  /** The documents that are put, additions before updates. */
  function Written(kvs: Kvs, tenant: string, serviceId: string, docs: seq<Doc>): seq<Doc> {
    Additions(kvs, tenant, serviceId, docs) + Updates(kvs, tenant, serviceId, docs)
  }

  /** The listed keys whose ids were not requested, one deletion each. */
  function Dropped(kvs: Kvs, tenant: string, serviceId: string, docs: seq<Doc>): set<Key> {
    set k | k in ListedKeys(kvs, tenant, serviceId) && k.schemaId !in Ids(docs)
  }

  function Deletions(kvs: Kvs, tenant: string, serviceId: string, docs: seq<Doc>): set<string> {
    ListedIds(kvs, tenant, serviceId) - Ids(docs)
  }

  function PutDocs(kvs: Kvs, tenant: string, serviceId: string, docs: seq<Doc>): Kvs {
    if docs == [] then kvs
    else
      var init, last := docs[..|docs| - 1], docs[|docs| - 1];
      PutDocs(kvs, tenant, serviceId, init)
        [Schema(tenant, serviceId, last.schemaId) := Entry(Text(last.schema), 0)]
        [SchemaSummary(tenant, serviceId, last.schemaId) := Entry(Text(last.summary), 0)]
  }

  predicate DocKey(k: Key, tenant: string, serviceId: string, ids: set<string>) {
    (k.Schema? || k.SchemaSummary?) && Own(k, tenant, serviceId) && k.schemaId in ids
  }

  function DropDocs(kvs: Kvs, tenant: string, serviceId: string, ids: set<string>): Kvs {
    map k | k in kvs && !DocKey(k, tenant, serviceId, ids) :: kvs[k]
  }

  /** `quota` says whether the quota grants a growth of the schema count. */
  predicate QuotaRefuses(listed: Kvs, tenant: string, serviceId: string, docs: seq<Doc>, quota: bool) {
    && |Additions(listed, tenant, serviceId, docs)| > |Dropped(listed, tenant, serviceId, docs)|
    && !quota
  }

  /** The record is read from `read`, the stored schemas are listed on `listed`, and the transaction commits on
      `now`. */
  function AfterModify(read: Kvs, listed: Kvs, now: Kvs, tenant: string, serviceId: string, docs: seq<Doc>,
                       quota: bool): Kvs {
    if !HasRecord(read, tenant, serviceId) || Service(tenant, serviceId) !in now ||
       QuotaRefuses(listed, tenant, serviceId, docs, quota)
    then now
    else
      var written := Written(listed, tenant, serviceId, docs);
      DropDocs(PutDocs(now, tenant, serviceId, written), tenant, serviceId, Deletions(listed, tenant, serviceId, docs))
        [Service(tenant, serviceId) :=
           Entry(Record(RecordAt(read, tenant, serviceId).(schemas := IdList(written))), 0)]
  }

  /** A document as it is listed: the id in the key and the stored text. */
  function Listed(kvs: Kvs, k: Key): Doc
    requires k in kvs && k.Schema?
  {
    Doc(k.schemaId, if kvs[k].value.Text? then kvs[k].value.text else "", "")
  }

  /** One document for each listed key, in the order of `keys`. */
  ghost predicate IsListing(kvs: Kvs, docs: seq<Doc>, keys: seq<Key>) {
    && |docs| == |keys|
    && (forall i :: 0 <= i < |keys| ==> keys[i] in kvs && keys[i].Schema? && docs[i] == Listed(kvs, keys[i]))
    && (forall i, j :: 0 <= i < j < |keys| ==> keys[i] != keys[j])
  }

  method ListSchemas(kvs: Kvs, tenant: string, serviceId: string) returns (docs: seq<Doc>, ghost keys: seq<Key>)
    ensures IsListing(kvs, docs, keys) && (set k | k in keys) == ListedKeys(kvs, tenant, serviceId)
  {
    docs, keys := [], [];
    var todo := set k | k in kvs && Covers(Schemas, tenant, serviceId, k);
    ghost var all := todo;
    while todo != {}
      invariant todo <= all && IsListing(kvs, docs, keys) && (set k | k in keys) == all - todo
      decreases todo
    {
      var k :| k in todo;
      assert k !in (set m | m in keys);
      assert (set m | m in keys + [k]) == (set m | m in keys) + {k};
      assert all - (todo - {k}) == (all - todo) + {k};
      docs, keys := docs + [Listed(kvs, k)], keys + [k];
      todo := todo - {k};
    }
  }

  method AppendPuts(ghost kvs: Kvs, tenant: string, serviceId: string, docs: seq<Doc>, ops: seq<Op>)
    returns (more: seq<Op>)
    requires forall op :: op in ops ==> !op.Put? || op.lease == 0
    ensures forall op :: op in more ==> !op.Put? || op.lease == 0
    ensures Apply(more, kvs) == PutDocs(Apply(ops, kvs), tenant, serviceId, docs)
  {
    more := ops;
    for i := 0 to |docs|
      invariant forall op :: op in more ==> !op.Put? || op.lease == 0
      invariant Apply(more, kvs) == PutDocs(Apply(ops, kvs), tenant, serviceId, docs[..i])
    {
      var d := docs[i];
      var a := Put(Schema(tenant, serviceId, d.schemaId), Text(d.schema), 0);
      var b := Put(SchemaSummary(tenant, serviceId, d.schemaId), Text(d.summary), 0);
      ApplyAppend(more, a, kvs);
      ApplyAppend(more + [a], b, kvs);
      more := more + [a] + [b];
      assert docs[..i + 1][..i] == docs[..i];
    }
    assert docs[..|docs|] == docs;
  }

  method AppendDeletions(ghost kvs: Kvs, tenant: string, serviceId: string, docs: seq<Doc>, ops: seq<Op>)
    returns (more: seq<Op>)
    requires forall op :: op in ops ==> !op.Put? || op.lease == 0
    ensures forall op :: op in more ==> !op.Put? || op.lease == 0
    ensures Apply(more, kvs) == DropDocs(Apply(ops, kvs), tenant, serviceId, Ids(docs))
  {
    more := ops;
    for i := 0 to |docs|
      invariant forall op :: op in more ==> !op.Put? || op.lease == 0
      invariant Apply(more, kvs) == DropDocs(Apply(ops, kvs), tenant, serviceId, Ids(docs[..i]))
    {
      var d := docs[i];
      var a, b := Delete(Schema(tenant, serviceId, d.schemaId)), Delete(SchemaSummary(tenant, serviceId, d.schemaId));
      ApplyAppend(more, a, kvs);
      ApplyAppend(more + [a], b, kvs);
      DropOne(Apply(ops, kvs), tenant, serviceId, Ids(docs[..i]), d.schemaId);
      more := more + [a] + [b];
      assert docs[..i + 1] == docs[..i] + [d];
      FirstsAppend(docs[..i], d);
    }
    assert docs[..|docs|] == docs;
  }

  lemma DropOne(kvs: Kvs, tenant: string, serviceId: string, ids: set<string>, id: string)
    ensures DropDocs(kvs, tenant, serviceId, ids + {id}) ==
      DropDocs(kvs, tenant, serviceId, ids) - {Schema(tenant, serviceId, id)} - {SchemaSummary(tenant, serviceId, id)}
  {
  }

  datatype ModifyResult = Modified | ServiceMissing | NoQuota

  method ModifySchemas(db: Backend, tenant: string, serviceId: string, docs: seq<Doc>, quota: bool)
    returns (r: ModifyResult)
    modifies db
    ensures db.kvs == AfterModify(old(db.kvs), old(db.kvs), old(db.kvs), tenant, serviceId, docs, quota) && db.leases == old(db.leases)
    ensures r == if !HasRecord(old(db.kvs), tenant, serviceId) then ServiceMissing
                 else if QuotaRefuses(old(db.kvs), tenant, serviceId, docs, quota) then NoQuota else Modified
  {
    if !HasRecord(db.kvs, tenant, serviceId) {
      return ServiceMissing;
    }
    var service := RecordAt(db.kvs, tenant, serviceId);
    ghost var keys;
    var fromDb;
    fromDb, keys := ListSchemas(db.kvs, tenant, serviceId);
    var update, add, delete, _ := SchemasAnalysis(docs, fromDb, service.schemas);
    DroppedAre(db.kvs, tenant, serviceId, fromDb, keys, docs);
    var quotaSize := |add| - |delete|;
    if quotaSize > 0 && !quota {
      return NoQuota;
    }
    var ops := AppendPuts(db.kvs, tenant, serviceId, add, []);
    ops := AppendPuts(db.kvs, tenant, serviceId, update, ops);
    PutDocsConcat(db.kvs, tenant, serviceId, add, update);
    ops := AppendDeletions(db.kvs, tenant, serviceId, delete, ops);
    var op := Put(Service(tenant, serviceId), Record(service.(schemas := IdList(add + update))), 0);
    ApplyAppend(ops, op, db.kvs);
    GuardedTxn(db.Contents(), ops + [op], Exists(Service(tenant, serviceId)));
    var _ := db.TxnWithCmp(ops + [op], [Exists(Service(tenant, serviceId))], []);
    return Modified;
  }

  /** The listed documents that were not requested, one for each dropped key. */
  lemma DroppedAre(kvs: Kvs, tenant: string, serviceId: string, fromDb: seq<Doc>, keys: seq<Key>, docs: seq<Doc>)
    requires IsListing(kvs, fromDb, keys) && (set k | k in keys) == ListedKeys(kvs, tenant, serviceId)
    ensures Ids(fromDb) == ListedIds(kvs, tenant, serviceId)
    ensures Ids(NotIn(fromDb, Ids(docs))) == Deletions(kvs, tenant, serviceId, docs)
    ensures |NotIn(fromDb, Ids(docs))| == |Dropped(kvs, tenant, serviceId, docs)|
  {
    ListedIdsAre(kvs, tenant, serviceId, fromDb, keys);
    FilterFacts(fromDb, Ids(docs));
    forall id | id in Ids(fromDb) - Ids(docs) ensures id in Ids(NotIn(fromDb, Ids(docs))) {
      var d :| d in fromDb && d.schemaId == id;
      assert d in NotIn(fromDb, Ids(docs));
    }
    CountNotIn(kvs, fromDb, keys, Ids(docs));
    assert Dropped(kvs, tenant, serviceId, docs) == KeysNotIn(keys, Ids(docs)) by {
      assert forall k :: k in keys <==> k in ListedKeys(kvs, tenant, serviceId);
    }
  }

  lemma ListedIdsAre(kvs: Kvs, tenant: string, serviceId: string, fromDb: seq<Doc>, keys: seq<Key>)
    requires IsListing(kvs, fromDb, keys) && (set k | k in keys) == ListedKeys(kvs, tenant, serviceId)
    ensures Ids(fromDb) == ListedIds(kvs, tenant, serviceId)
  {
    assert forall k :: k in keys <==> k in ListedKeys(kvs, tenant, serviceId);
    forall d | d in fromDb ensures d.schemaId in ListedIds(kvs, tenant, serviceId) {
      var i :| 0 <= i < |fromDb| && fromDb[i] == d;
      assert keys[i] in keys;
    }
    forall k | k in ListedKeys(kvs, tenant, serviceId) ensures k.schemaId in Ids(fromDb) {
      assert k in keys;
      var i :| 0 <= i < |keys| && keys[i] == k;
      assert fromDb[i] in fromDb;
    }
  }

  function KeysNotIn(keys: seq<Key>, ids: set<string>): set<Key> {
    set k | k in keys && k.Schema? && k.schemaId !in ids
  }

  lemma {:induction false} CountNotIn(kvs: Kvs, docs: seq<Doc>, keys: seq<Key>, ids: set<string>)
    requires IsListing(kvs, docs, keys)
    ensures |NotIn(docs, ids)| == |KeysNotIn(keys, ids)|
  {
    if docs == [] {
      assert KeysNotIn(keys, ids) == {};
    } else {
      var n := |docs| - 1;
      CountNotIn(kvs, docs[..n], keys[..n], ids);
      OneMoreKey(keys[..n], keys[n], ids);
      assert keys == keys[..n] + [keys[n]];
      assert docs == docs[..n] + [docs[n]];
      FilterAppend(docs[..n], docs[n], ids);
    }
  }

  lemma OneMoreKey(keys: seq<Key>, k: Key, ids: set<string>)
    requires k !in keys && k.Schema?
    ensures |KeysNotIn(keys + [k], ids)| == |KeysNotIn(keys, ids)| + if k.schemaId in ids then 0 else 1
  {
    assert forall m :: m in keys + [k] <==> m in keys || m == k;
    if k.schemaId in ids {
      assert KeysNotIn(keys + [k], ids) == KeysNotIn(keys, ids);
    } else {
      assert KeysNotIn(keys + [k], ids) == KeysNotIn(keys, ids) + {k};
    }
  }

  lemma {:induction false} PutDocsConcat(kvs: Kvs, tenant: string, serviceId: string, a: seq<Doc>, b: seq<Doc>)
    ensures PutDocs(kvs, tenant, serviceId, a + b) == PutDocs(PutDocs(kvs, tenant, serviceId, a), tenant, serviceId, b)
  {
    if b == [] {
      assert a + b == a;
    } else {
      PutDocsConcat(kvs, tenant, serviceId, a, b[..|b| - 1]);
      assert (a + b)[..|a + b| - 1] == a + b[..|b| - 1];
    }
  }

  lemma {:induction false} PutDocsAt(kvs: Kvs, tenant: string, serviceId: string, docs: seq<Doc>, k: Key)
    requires !DocKey(k, tenant, serviceId, Ids(docs))
    ensures var puts := PutDocs(kvs, tenant, serviceId, docs); (k in puts <==> k in kvs) && (k in kvs ==> puts[k] == kvs[k])
  {
    if docs != [] {
      var init, last := docs[..|docs| - 1], docs[|docs| - 1];
      assert docs == init + [last];
      FirstsAppend(init, last);
      PutDocsAt(kvs, tenant, serviceId, init, k);
    }
  }

  lemma {:induction false} PutDocsHas(kvs: Kvs, tenant: string, serviceId: string, docs: seq<Doc>, d: Doc)
    requires DistinctIds(docs) && d in docs
    ensures var puts := PutDocs(kvs, tenant, serviceId, docs);
      HasText(puts, Schema(tenant, serviceId, d.schemaId), d.schema) &&
      HasText(puts, SchemaSummary(tenant, serviceId, d.schemaId), d.summary)
  {
    var init, last := docs[..|docs| - 1], docs[|docs| - 1];
    assert docs == init + [last];
    if d != last {
      assert d in init;
      PutDocsHas(kvs, tenant, serviceId, init, d);
      var i :| 0 <= i < |init| && init[i] == d;
      assert docs[i].schemaId != docs[|docs| - 1].schemaId;
    }
  }

  lemma {:induction false} FirstsContain(docs: seq<Doc>, i: nat)
    requires i < |docs| && docs[i].schemaId !in Ids(docs[..i])
    ensures docs[i] in Firsts(docs)
  {
    var init, last := docs[..|docs| - 1], docs[|docs| - 1];
    if i < |init| {
      assert init[..i] == docs[..i];
      FirstsContain(init, i);
    }
  }

  lemma {:induction false} IdListFacts(docs: seq<Doc>)
    ensures |IdList(docs)| == |docs| && forall i :: 0 <= i < |docs| ==> IdList(docs)[i] == docs[i].schemaId
  {
    if docs != [] {
      IdListFacts(docs[..|docs| - 1]);
    }
  }

  /** The written documents are the first occurrences, additions before updates, each id once. */
  lemma {:induction false} WrittenFacts(kvs: Kvs, tenant: string, serviceId: string, docs: seq<Doc>)
    ensures var written := Written(kvs, tenant, serviceId, docs);
      && DistinctIds(written) && Ids(written) == Ids(docs)
      && forall d :: d in written <==> d in Firsts(docs)
  {
    var add, update := Additions(kvs, tenant, serviceId, docs), Updates(kvs, tenant, serviceId, docs);
    FirstsFacts(docs);
    FilterFacts(Firsts(docs), ListedIds(kvs, tenant, serviceId));
    forall i, j | 0 <= i < |add| && 0 <= j < |update| ensures add[i].schemaId != update[j].schemaId {
      assert add[i] in add && update[j] in update;
    }
    assert forall d :: d in add + update <==> d in add || d in update;
    assert Ids(add + update) == Ids(Firsts(docs));
  }

  /** After a granted request the stored schemas are exactly the requested ids with the contents of their
      first occurrences, the service lists each once, and no key of another service has changed. */
  lemma {:induction false} ModifyStoresRequest(kvs: Kvs, tenant: string, serviceId: string, docs: seq<Doc>, quota: bool)
    requires HasRecord(kvs, tenant, serviceId) && !QuotaRefuses(kvs, tenant, serviceId, docs, quota)
    ensures var after := AfterModify(kvs, kvs, kvs, tenant, serviceId, docs, quota);
      && StoredIds(after, tenant, serviceId) == Ids(docs)
      && (forall i :: 0 <= i < |docs| && docs[i].schemaId !in Ids(docs[..i]) ==> StoredAs(after, tenant, serviceId, docs[i]))
      && HasRecord(after, tenant, serviceId)
      && multiset(RecordAt(after, tenant, serviceId).schemas) == multiset(Ids(docs))
      && forall k: Key :: !Own(k, tenant, serviceId) && k != Service(tenant, serviceId) ==>
           (k in after <==> k in kvs) && (k in kvs ==> after[k] == kvs[k])
  {
    var after := AfterModify(kvs, kvs, kvs, tenant, serviceId, docs, quota);
    WrittenFacts(kvs, tenant, serviceId, docs);
    ModifyDomain(kvs, tenant, serviceId, docs, quota);
    forall i | 0 <= i < |docs| && docs[i].schemaId !in Ids(docs[..i]) ensures StoredAs(after, tenant, serviceId, docs[i]) {
      FirstIsStored(kvs, tenant, serviceId, docs, quota, i);
    }
    ListedOnce(Written(kvs, tenant, serviceId, docs));
    forall k: Key | !Own(k, tenant, serviceId) && k != Service(tenant, serviceId)
      ensures (k in after <==> k in kvs) && (k in kvs ==> after[k] == kvs[k])
    {
      PutDocsAt(kvs, tenant, serviceId, Written(kvs, tenant, serviceId, docs), k);
    }
  }

  /** The record a granted request writes, however old its reads are: each requested id once, and all other fields as
      they were read. A request that is not granted, or whose service is missing, changes nothing. */
  lemma ModifyRecordStored(read: Kvs, listed: Kvs, now: Kvs, tenant: string, serviceId: string, docs: seq<Doc>, quota: bool)
    ensures
      var after := AfterModify(read, listed, now, tenant, serviceId, docs, quota);
      if HasRecord(read, tenant, serviceId) && Service(tenant, serviceId) in now &&
         !QuotaRefuses(listed, tenant, serviceId, docs, quota)
      then
        && HasRecord(after, tenant, serviceId)
        && multiset(RecordAt(after, tenant, serviceId).schemas) == multiset(Ids(docs))
        && RecordAt(after, tenant, serviceId).(schemas := []) == RecordAt(read, tenant, serviceId).(schemas := [])
      else after == now
  {
    WrittenFacts(listed, tenant, serviceId, docs);
    ListedOnce(Written(listed, tenant, serviceId, docs));
  }

  /** The summaries after a granted request: those of the requested ids, and those of ids that were not listed. */
  lemma {:induction false} ModifySummaries(kvs: Kvs, tenant: string, serviceId: string, docs: seq<Doc>, quota: bool, x: string)
    requires HasRecord(kvs, tenant, serviceId) && !QuotaRefuses(kvs, tenant, serviceId, docs, quota)
    ensures
      var after, k := AfterModify(kvs, kvs, kvs, tenant, serviceId, docs, quota), SchemaSummary(tenant, serviceId, x);
      k in after <==> x in Ids(docs) || (k in kvs && x !in ListedIds(kvs, tenant, serviceId))
  {
    var written := Written(kvs, tenant, serviceId, docs);
    WrittenFacts(kvs, tenant, serviceId, docs);
    if x in Ids(docs) {
      var d :| d in written && d.schemaId == x;
      PutDocsHas(kvs, tenant, serviceId, written, d);
    } else {
      PutDocsAt(kvs, tenant, serviceId, written, SchemaSummary(tenant, serviceId, x));
    }
  }

  predicate StoredAs(kvs: Kvs, tenant: string, serviceId: string, d: Doc) {
    && HasText(kvs, Schema(tenant, serviceId, d.schemaId), d.schema)
    && HasText(kvs, SchemaSummary(tenant, serviceId, d.schemaId), d.summary)
  }

  lemma {:induction false} FirstIsStored(kvs: Kvs, tenant: string, serviceId: string, docs: seq<Doc>, quota: bool, i: nat)
    requires HasRecord(kvs, tenant, serviceId) && !QuotaRefuses(kvs, tenant, serviceId, docs, quota)
    requires i < |docs| && docs[i].schemaId !in Ids(docs[..i])
    ensures StoredAs(AfterModify(kvs, kvs, kvs, tenant, serviceId, docs, quota), tenant, serviceId, docs[i])
  {
    var written := Written(kvs, tenant, serviceId, docs);
    WrittenFacts(kvs, tenant, serviceId, docs);
    FirstsContain(docs, i);
    PutDocsHas(kvs, tenant, serviceId, written, docs[i]);
    assert docs[i].schemaId in Ids(docs);
  }

  lemma {:induction false} ModifyDomain(kvs: Kvs, tenant: string, serviceId: string, docs: seq<Doc>, quota: bool)
    requires HasRecord(kvs, tenant, serviceId) && !QuotaRefuses(kvs, tenant, serviceId, docs, quota)
    ensures StoredIds(AfterModify(kvs, kvs, kvs, tenant, serviceId, docs, quota), tenant, serviceId) == Ids(docs)
  {
    var after := AfterModify(kvs, kvs, kvs, tenant, serviceId, docs, quota);
    var written := Written(kvs, tenant, serviceId, docs);
    WrittenFacts(kvs, tenant, serviceId, docs);
    forall x ensures Schema(tenant, serviceId, x) in after <==> x in Ids(docs) {
      var k := Schema(tenant, serviceId, x);
      if x in Ids(docs) {
        var d :| d in written && d.schemaId == x;
        PutDocsHas(kvs, tenant, serviceId, written, d);
      } else {
        PutDocsAt(kvs, tenant, serviceId, written, k);
        if k in kvs {
          assert k in ListedKeys(kvs, tenant, serviceId);
          assert x in Deletions(kvs, tenant, serviceId, docs);
        }
      }
    }
    SchemaKeysAreIds(after, tenant, serviceId, Ids(docs));
  }

  lemma SchemaKeysAreIds(kvs: Kvs, tenant: string, serviceId: string, ids: set<string>)
    requires forall x :: Schema(tenant, serviceId, x) in kvs <==> x in ids
    ensures StoredIds(kvs, tenant, serviceId) == ids
  {
    forall x | x in ids ensures x in StoredIds(kvs, tenant, serviceId) {
      assert Own(Schema(tenant, serviceId, x), tenant, serviceId);
    }
  }

  lemma {:induction false} ListedOnce(docs: seq<Doc>)
    requires DistinctIds(docs)
    ensures multiset(IdList(docs)) == multiset(Ids(docs))
  {
    if docs != [] {
      var init, last := docs[..|docs| - 1], docs[|docs| - 1];
      assert docs == init + [last];
      ListedOnce(init);
      FirstsAppend(init, last);
      assert IdList(docs) == IdList(init) + [last.schemaId];
      assert last.schemaId !in Ids(init);
    }
  }

  /** The listed keys of other services, whose ids continue this one behind a "/". */
  function Foreign(kvs: Kvs, tenant: string, serviceId: string): set<Key> {
    set k | k in ListedKeys(kvs, tenant, serviceId) && k.serviceId != serviceId
  }

  /** The growth that the quota is asked for is never more than the growth of the stored schemas, and is that
      growth exactly when every listed schema of another service has an id that is requested and stored here too. */
  lemma {:induction false} GrowthExact(kvs: Kvs, tenant: string, serviceId: string, docs: seq<Doc>, quota: bool)
    requires HasRecord(kvs, tenant, serviceId) && !QuotaRefuses(kvs, tenant, serviceId, docs, quota)
    ensures var after := AfterModify(kvs, kvs, kvs, tenant, serviceId, docs, quota);
      var growth := |StoredIds(after, tenant, serviceId)| - |StoredIds(kvs, tenant, serviceId)|;
      var asked := |Additions(kvs, tenant, serviceId, docs)| - |Dropped(kvs, tenant, serviceId, docs)|;
      && asked <= growth
      && (asked == growth <==>
            forall k :: k in Foreign(kvs, tenant, serviceId) ==>
              k.schemaId in Ids(docs) && k.schemaId in StoredIds(kvs, tenant, serviceId))
  {
    ModifyDomain(kvs, tenant, serviceId, docs, quota);
    AdditionCount(kvs, tenant, serviceId, docs);
    DroppedCount(kvs, tenant, serviceId, docs);
    StoredIsListed(kvs, tenant, serviceId);
    GrowthOf(Ids(docs), StoredIds(kvs, tenant, serviceId), ListedIds(kvs, tenant, serviceId));
    HiddenExact(kvs, tenant, serviceId, Ids(docs));
  }

  /** Where no key of another service is listed, a request is refused exactly when the quota grants no growth and the
      service would store more schemas than before. */
  lemma {:induction false} QuotaExact(kvs: Kvs, tenant: string, serviceId: string, docs: seq<Doc>, quota: bool)
    requires Foreign(kvs, tenant, serviceId) == {}
    ensures QuotaRefuses(kvs, tenant, serviceId, docs, quota) <==>
      !quota && |Ids(docs)| > |StoredIds(kvs, tenant, serviceId)|
  {
    AdditionCount(kvs, tenant, serviceId, docs);
    DroppedCount(kvs, tenant, serviceId, docs);
    StoredIsListed(kvs, tenant, serviceId);
    assert ListedIds(kvs, tenant, serviceId) == StoredIds(kvs, tenant, serviceId) by {
      forall k | k in ListedKeys(kvs, tenant, serviceId) ensures k.schemaId in StoredIds(kvs, tenant, serviceId) {
        assert k !in Foreign(kvs, tenant, serviceId);
      }
    }
    assert Gone(kvs, tenant, serviceId, Ids(docs)) == {};
    SetGrowth(Ids(docs), StoredIds(kvs, tenant, serviceId));
  }

  /** The dropped keys of other services. */
  function Gone(kvs: Kvs, tenant: string, serviceId: string, wanted: set<string>): set<Key> {
    set k | k in Foreign(kvs, tenant, serviceId) && k.schemaId !in wanted
  }

  lemma GrowthOf(wanted: set<string>, stored: set<string>, listed: set<string>)
    requires stored <= listed
    ensures |wanted| - |stored| == |wanted - listed| - |stored - wanted| + |wanted * (listed - stored)|
  {
    SetGrowth(wanted, stored);
    assert wanted - stored == (wanted - listed) + wanted * (listed - stored);
  }

  /** No requested id is stored by other services only and none of their keys is dropped exactly when each of
      their ids is requested and stored here. */
  lemma HiddenExact(kvs: Kvs, tenant: string, serviceId: string, wanted: set<string>)
    ensures var stored := StoredIds(kvs, tenant, serviceId);
      |wanted * (ListedIds(kvs, tenant, serviceId) - stored)| + |Gone(kvs, tenant, serviceId, wanted)| == 0 <==>
        forall k :: k in Foreign(kvs, tenant, serviceId) ==> k.schemaId in wanted && k.schemaId in stored
  {
    var stored := StoredIds(kvs, tenant, serviceId);
    var hidden, gone := wanted * (ListedIds(kvs, tenant, serviceId) - stored), Gone(kvs, tenant, serviceId, wanted);
    assert |hidden| == 0 <==> hidden == {};
    assert |gone| == 0 <==> gone == {};
    forall k | k in Foreign(kvs, tenant, serviceId)
      ensures k in gone <==> k.schemaId !in wanted
      ensures k.schemaId in hidden <==> k.schemaId in wanted && k.schemaId !in stored
    {
      assert k in ListedKeys(kvs, tenant, serviceId);
    }
    forall id | id in hidden ensures exists k :: k in Foreign(kvs, tenant, serviceId) && k.schemaId == id {
      var k :| k in ListedKeys(kvs, tenant, serviceId) && k.schemaId == id;
      assert k in Foreign(kvs, tenant, serviceId);
    }
  }

  lemma StoredIsListed(kvs: Kvs, tenant: string, serviceId: string)
    ensures StoredIds(kvs, tenant, serviceId) <= ListedIds(kvs, tenant, serviceId)
  {
    forall k | k in kvs && k.Schema? && Own(k, tenant, serviceId) ensures k.schemaId in ListedIds(kvs, tenant, serviceId) {
      assert k in ListedKeys(kvs, tenant, serviceId);
    }
  }

  lemma {:induction false} AdditionCount(kvs: Kvs, tenant: string, serviceId: string, docs: seq<Doc>)
    ensures |Additions(kvs, tenant, serviceId, docs)| == |Ids(docs) - ListedIds(kvs, tenant, serviceId)|
  {
    var listed, add := ListedIds(kvs, tenant, serviceId), Additions(kvs, tenant, serviceId, docs);
    FirstsFacts(docs);
    FilterFacts(Firsts(docs), listed);
    DistinctCount(add);
    assert Ids(add) == Ids(docs) - listed by {
      forall id | id in Ids(docs) - listed ensures id in Ids(add) {
        var d :| d in Firsts(docs) && d.schemaId == id;
        assert d in add;
      }
    }
  }

  /** The dropped keys are those of the service itself, one for each id, and those of other services. */
  lemma DroppedCount(kvs: Kvs, tenant: string, serviceId: string, docs: seq<Doc>)
    ensures |Dropped(kvs, tenant, serviceId, docs)| ==
      |StoredIds(kvs, tenant, serviceId) - Ids(docs)| + |Gone(kvs, tenant, serviceId, Ids(docs))|
  {
    var ids, gone := StoredIds(kvs, tenant, serviceId) - Ids(docs), Gone(kvs, tenant, serviceId, Ids(docs));
    var own := set x | x in ids :: Schema(tenant, serviceId, x);
    SchemaKeyCount(tenant, serviceId, ids);
    assert Dropped(kvs, tenant, serviceId, docs) == own + gone by {
      forall k | k in Dropped(kvs, tenant, serviceId, docs) ensures k in own + gone {
        if k.serviceId == serviceId {
          assert k == Schema(tenant, serviceId, k.schemaId) && k.schemaId in ids;
        }
      }
    }
    assert own !! gone;
  }

  lemma {:induction false} SchemaKeyCount(tenant: string, serviceId: string, ids: set<string>)
    ensures |set x | x in ids :: Schema(tenant, serviceId, x)| == |ids|
  {
    if ids != {} {
      var y :| y in ids;
      SchemaKeyCount(tenant, serviceId, ids - {y});
      assert (set x | x in ids :: Schema(tenant, serviceId, x)) ==
             (set x | x in ids - {y} :: Schema(tenant, serviceId, x)) + {Schema(tenant, serviceId, y)};
    }
  }

  lemma SetGrowth(a: set<string>, b: set<string>)
    ensures |a| - |b| == |a - b| - |b - a|
  {
    assert a == (a - b) + (a * b) && b == (b - a) + (a * b);
  }
}
