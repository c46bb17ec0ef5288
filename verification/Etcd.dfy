/** The key-value backend that the registry is built on: typed keys, leases, and
    atomic if/then/else transactions over operation lists. */
module Etcd {

  /** A micro-service record, as stored under its service key. */
  datatype ServiceRecord = ServiceRecord(
    serviceId: string,
    environment: string,
    appId: string,
    serviceName: string,
    version: string,
    alias: string,
    schemas: seq<string>,
    properties: map<string, string>)

  /** The identity of a service in dependency rules. */
  datatype ServiceKey = ServiceKey(
    tenant: string, environment: string, appId: string, serviceName: string, version: string, alias: string)

  /** An account; `role` is the field of the old format, which held a single role. */
  datatype Account = Account(name: string, role: string, roles: seq<string>)

  /** One constructor per key family; Paths proves that the rendered strings are as distinct as these values. */
  datatype Key =
    | Service(tenant: string, serviceId: string)
    | Index(tenant: string, environment: string, appId: string, serviceName: string, version: string)
    | Alias(tenant: string, environment: string, appId: string, alias: string, version: string)
    | Tag(tenant: string, serviceId: string)
    | Instance(tenant: string, serviceId: string, instanceId: string)
    | Lease(tenant: string, serviceId: string, instanceId: string)
    | Schema(tenant: string, serviceId: string, schemaId: string)
    | SchemaSummary(tenant: string, serviceId: string, schemaId: string)
    | SchemaRef(tenant: string, serviceId: string, schemaId: string)
    | SchemaContent(tenant: string, hash: string)
    | DependencyQueue(tenant: string, consumerId: string, uuid: string)
    | AccountOf(name: string)
    | RoleOf(name: string)
    | RoleAccount(role: string, name: string)

  datatype Value =
    | Record(service: ServiceRecord)
    | Text(text: string)
    | LeaseNumber(id: nat)
    | AccountInfo(account: Account)
    | ConsumerDependency(consumer: ServiceKey, providers: seq<ServiceKey>, override: bool)

  /** A stored value with the lease it is attached to; 0 is "no lease". */
  datatype Entry = Entry(value: Value, lease: nat)

  type Kvs = map<Key, Entry>

  datatype State = State(kvs: Kvs, leases: set<nat>)

  /** The key is stored, with value and lease, as it was. */
  predicate Same(now: Kvs, after: Kvs, k: Key) {
    (k in now <==> k in after) && (k in now ==> now[k] == after[k])
  }

  /** The key families that are listed and deleted by prefix, all below one service id. */
  datatype Family = Schemas | Summaries | Refs | Instances | Leases

  /** The id itself, or one that continues it behind a "/": service ids may contain slashes. */
  predicate Within(id: string, serviceId: string) {
    id == serviceId || serviceId + "/" <= id
  }

  /** The keys that the string prefix of a service id finds; Paths proves that these are the ones. */
  predicate Covers(f: Family, tenant: string, serviceId: string, k: Key) {
    match f
    case Schemas => k.Schema? && k.tenant == tenant && Within(k.serviceId, serviceId)
    case Summaries => k.SchemaSummary? && k.tenant == tenant && Within(k.serviceId, serviceId)
    case Refs => k.SchemaRef? && k.tenant == tenant && Within(k.serviceId, serviceId)
    case Instances => k.Instance? && k.tenant == tenant && Within(k.serviceId, serviceId)
    case Leases => k.Lease? && k.tenant == tenant && Within(k.serviceId, serviceId)
  }

  datatype Op =
    | Put(key: Key, value: Value, lease: nat)
    | Delete(key: Key)
    | DeletePrefix(family: Family, tenant: string, serviceId: string)
    | Get(key: Key)

  datatype Cmp = Exists(key: Key) | NotExists(key: Key)

  datatype TxnResponse = LeaseNotFound | Done(succeeded: bool, values: seq<Value>)

  predicate Holds(c: Cmp, kvs: Kvs) {
    match c
    case Exists(k) => k in kvs
    case NotExists(k) => k !in kvs
  }

  function ApplyOp(op: Op, kvs: Kvs): Kvs {
    match op
    case Put(k, v, l) => kvs[k := Entry(v, l)]
    case Delete(k) => kvs - {k}
    case DeletePrefix(f, t, s) => map k | k in kvs && !Covers(f, t, s, k) :: kvs[k]
    case Get(_) => kvs
  }

  /** The operations of one transaction, applied in order. */
  function Apply(ops: seq<Op>, kvs: Kvs): Kvs {
    if ops == [] then kvs else ApplyOp(ops[|ops| - 1], Apply(ops[..|ops| - 1], kvs))
  }

  lemma ApplyAppend(ops: seq<Op>, op: Op, kvs: Kvs)
    ensures Apply(ops + [op], kvs) == ApplyOp(op, Apply(ops, kvs))
  {
    assert (ops + [op])[..|ops|] == ops;
  }

  lemma {:induction false} ApplyConcat(xs: seq<Op>, ys: seq<Op>, kvs: Kvs)
    ensures Apply(xs + ys, kvs) == Apply(ys, Apply(xs, kvs))
  {
    if ys == [] {
      assert xs + ys == xs;
    } else {
      var init := ys[..|ys| - 1];
      ApplyConcat(xs, init, kvs);
      assert (xs + ys)[..|xs + ys| - 1] == xs + init;
    }
  }

  predicate Deletes(op: Op, k: Key) {
    match op
    case Delete(key) => k == key
    case DeletePrefix(f, t, s) => Covers(f, t, s, k)
    case _ => false
  }

  predicate Deleted(ops: seq<Op>, k: Key) {
    exists i :: 0 <= i < |ops| && Deletes(ops[i], k)
  }

  /** A list of deletions removes exactly the keys that one of them hits. */
  lemma {:induction false} ApplyDeletions(ops: seq<Op>, kvs: Kvs, k: Key)
    requires forall op :: op in ops ==> op.Delete? || op.DeletePrefix?
    ensures k in Apply(ops, kvs) <==> k in kvs && !Deleted(ops, k)
    ensures k in Apply(ops, kvs) ==> Apply(ops, kvs)[k] == kvs[k]
  {
    if ops != [] {
      var init, last := ops[..|ops| - 1], ops[|ops| - 1];
      ApplyDeletions(init, kvs, k);
      assert Deleted(ops, k) <==> Deleted(init, k) || Deletes(last, k) by {
        if Deleted(init, k) {
          var i :| 0 <= i < |init| && Deletes(init[i], k);
          assert Deletes(ops[i], k);
        }
      }
      assert last in ops;
    }
  }

  /** The values the `Get` operations of a list find, in order. */
  function Found(ops: seq<Op>, kvs: Kvs): seq<Value> {
    if ops == [] then []
    else
      (if ops[0].Get? && ops[0].key in kvs then [kvs[ops[0].key].value] else []) + Found(ops[1..], kvs)
  }

  predicate LeasesAlive(ops: seq<Op>, leases: set<nat>) {
    forall op :: op in ops && op.Put? && op.lease != 0 ==> op.lease in leases
  }

  function Branch(s: State, cmps: seq<Cmp>, ops: seq<Op>, failOps: seq<Op>): seq<Op> {
    if forall c :: c in cmps ==> Holds(c, s.kvs) then ops else failOps
  }

  function TxnState(s: State, ops: seq<Op>, cmps: seq<Cmp>, failOps: seq<Op>): State {
    var branch := Branch(s, cmps, ops, failOps);
    if LeasesAlive(branch, s.leases) then s.(kvs := Apply(branch, s.kvs)) else s
  }

  function TxnAnswer(s: State, ops: seq<Op>, cmps: seq<Cmp>, failOps: seq<Op>): TxnResponse {
    var branch := Branch(s, cmps, ops, failOps);
    if LeasesAlive(branch, s.leases)
    then Done(forall c :: c in cmps ==> Holds(c, s.kvs), Found(branch, s.kvs))
    else LeaseNotFound
  }

  /** The usual shape: one guard, no alternative. */
  lemma GuardedTxn(s: State, ops: seq<Op>, c: Cmp)
    ensures TxnState(s, ops, [c], []) ==
      s.(kvs := if Holds(c, s.kvs) && LeasesAlive(ops, s.leases) then Apply(ops, s.kvs) else s.kvs)
    ensures TxnAnswer(s, ops, [c], []).LeaseNotFound? <==> Holds(c, s.kvs) && !LeasesAlive(ops, s.leases)
    ensures TxnAnswer(s, ops, [c], []).Done? ==> TxnAnswer(s, ops, [c], []).succeeded == Holds(c, s.kvs)
  {
    assert [c][0] == c;
    assert LeasesAlive([], s.leases) && Apply([], s.kvs) == s.kvs;
  }

  /** One guard with an alternative, and no leases involved. */
  lemma ForkedTxn(s: State, ops: seq<Op>, c: Cmp, failOps: seq<Op>)
    requires forall op :: op in ops || op in failOps ==> !op.Put? || op.lease == 0
    ensures TxnState(s, ops, [c], failOps) == s.(kvs := Apply(if Holds(c, s.kvs) then ops else failOps, s.kvs))
    ensures TxnAnswer(s, ops, [c], failOps).Done? && TxnAnswer(s, ops, [c], failOps).succeeded == Holds(c, s.kvs)
  {
    assert [c][0] == c;
  }

  /** A lease that is revoked or expires takes every key attached to it along. */
  function DropLease(s: State, id: nat): State {
    State(map k | k in s.kvs && s.kvs[k].lease != id :: s.kvs[k], s.leases - {id})
  }

  /** Several revocations; ids that are not live leases change nothing. */
  function DropLeases(s: State, ids: set<nat>): State {
    State(map k | k in s.kvs && !(s.kvs[k].lease in ids && s.kvs[k].lease in s.leases) :: s.kvs[k], s.leases - ids)
  }

  class Backend {
    var kvs: Kvs
    var leases: set<nat>

    constructor ()
      ensures Contents() == State(map[], {})
    {
      kvs, leases := map[], {};
    }

    function Contents(): State
      reads this
    {
      State(kvs, leases)
    }

    method TxnWithCmp(ops: seq<Op>, cmps: seq<Cmp>, failOps: seq<Op>) returns (r: TxnResponse)
      modifies this
      ensures Contents() == TxnState(old(Contents()), ops, cmps, failOps)
      ensures r == TxnAnswer(old(Contents()), ops, cmps, failOps)
    {
      var succeeded := true;
      for i := 0 to |cmps|
        invariant succeeded <==> forall c :: c in cmps[..i] ==> Holds(c, kvs)
      {
        assert cmps[..i + 1] == cmps[..i] + [cmps[i]];
        succeeded := succeeded && Holds(cmps[i], kvs);
      }
      assert cmps[..|cmps|] == cmps;
      var branch := if succeeded then ops else failOps;
      if !LeasesAlive(branch, leases) {
        return LeaseNotFound;
      }
      r := Done(succeeded, Found(branch, kvs));
      ghost var before := kvs;
      for i := 0 to |branch|
        invariant kvs == Apply(branch[..i], before) && leases == old(leases)
      {
        assert branch[..i + 1][..i] == branch[..i];
        kvs := ApplyOp(branch[i], kvs);
      }
      assert branch[..|branch|] == branch;
    }

    method LeaseGrant(id: nat)
      requires id != 0 && id !in leases
      modifies this
      ensures Contents() == old(Contents()).(leases := old(leases) + {id})
    {
      leases := leases + {id};
    }

    /** Revoking an unknown lease is an error of the backend and changes nothing. */
    method LeaseRevoke(id: nat) returns (found: bool)
      modifies this
      ensures found == (id in old(leases))
      ensures Contents() == if found then DropLease(old(Contents()), id) else old(Contents())
    {
      found := id in leases;
      if found {
        kvs := map k | k in kvs && kvs[k].lease != id :: kvs[k];
        leases := leases - {id};
      }
    }
  }
}
