/** Retirement of old versions: of every service name only the newest versions are kept, and of the others
    those without instances are unregistered. */
module Retire {
  import opened Etcd
  import opened Services
  import opened Instances
  import V = Versions

  datatype Name = Name(tenant: string, environment: string, appId: string, serviceName: string)

  /** One entry of the index listing, with its key taken apart. */
  datatype Indexed = Indexed(name: Name, version: string, serviceId: string)

  /** The entries of one service name, in listing order. */
  function Group(es: seq<Indexed>, name: Name): seq<Indexed> {
    if es == [] then []
    else
      var init, last := es[..|es| - 1], es[|es| - 1];
      if last.name == name then Group(init, name) + [last] else Group(init, name)
  }

  // ---------------------------------------------------------------- sorting

  /** No entry is newer than an earlier one; `number` gives the number of a version. */
  ghost predicate NewestFirst(number: string -> int, es: seq<Indexed>) {
    forall i, j :: 0 <= i < j < |es| ==> number(es[j].version) <= number(es[i].version)
  }

  function Insert(number: string -> int, es: seq<Indexed>, e: Indexed): seq<Indexed> {
    if es == [] || number(e.version) <= number(es[|es| - 1].version) then es + [e]
    else Insert(number, es[..|es| - 1], e) + [es[|es| - 1]]
  }

  lemma {:induction false} InsertKeeps(number: string -> int, es: seq<Indexed>, e: Indexed)
    requires NewestFirst(number, es)
    ensures multiset(Insert(number, es, e)) == multiset(es) + multiset{e}
    ensures NewestFirst(number, Insert(number, es, e))
  {
    if es == [] || number(e.version) <= number(es[|es| - 1].version) {
      AppendOldest(number, es, e);
    } else {
      var init, last := es[..|es| - 1], es[|es| - 1];
      InsertKeeps(number, init, e);
      assert es == init + [last];
      InsertDeeper(number, init, e, last, Insert(number, init, e));
    }
  }

  lemma {:induction false} InsertDeeper(number: string -> int, init: seq<Indexed>, e: Indexed, last: Indexed, longer: seq<Indexed>)
    requires NewestFirst(number, init + [last]) && number(e.version) > number(last.version)
    requires NewestFirst(number, longer) && multiset(longer) == multiset(init) + multiset{e}
    ensures NewestFirst(number, longer + [last])
    ensures multiset(longer + [last]) == multiset(init + [last]) + multiset{e}
  {
    forall i | 0 <= i < |init| ensures number(init[i].version) >= number(last.version) {
      assert (init + [last])[i] == init[i] && (init + [last])[|init|] == last;
    }
    AtLeastAll(number, init, longer, e, number(last.version));
    AppendOldest(number, longer, last);
  }

  lemma AppendOldest(number: string -> int, es: seq<Indexed>, e: Indexed)
    requires NewestFirst(number, es) && forall i :: 0 <= i < |es| ==> number(es[i].version) >= number(e.version)
    ensures NewestFirst(number, es + [e]) && multiset(es + [e]) == multiset(es) + multiset{e}
  {
  }

  /** A bound on a list and on an entry bounds every list of the same entries. */
  lemma AtLeastAll(number: string -> int, es: seq<Indexed>, r: seq<Indexed>, e: Indexed, n: int)
    requires multiset(r) == multiset(es) + multiset{e}
    requires number(e.version) >= n && forall i :: 0 <= i < |es| ==> number(es[i].version) >= n
    ensures forall i :: 0 <= i < |r| ==> number(r[i].version) >= n
  {
    forall i | 0 <= i < |r| ensures number(r[i].version) >= n {
      assert r[i] in multiset(r);
      assert r[i] == e || r[i] in es;
    }
  }

  method SortNewestFirst(number: string -> int, es: seq<Indexed>) returns (r: seq<Indexed>)
    ensures multiset(r) == multiset(es) && NewestFirst(number, r)
  {
    r := [];
    for i := 0 to |es|
      invariant NewestFirst(number, r) && multiset(r) == multiset(es[..i])
    {
      InsertKeeps(number, r, es[i]);
      r := Insert(number, r, es[i]);
      assert es[..i + 1] == es[..i] + [es[i]];
    }
    assert es[..|es|] == es;
  }

  // ---------------------------------------------------------------- candidates

  /** A name with entries `all` gives up all but `reserve` of them, and none that is newer than one it keeps. */
  ghost predicate GivesUp(number: string -> int, all: seq<Indexed>, gone: seq<Indexed>, kept: seq<Indexed>,
                          reserve: nat) {
    && multiset(all) == multiset(kept) + multiset(gone)
    && |kept| == (if |all| <= reserve then |all| else reserve)
    && forall g, k :: g in gone && k in kept ==> number(g.version) <= number(k.version)
  }

  ghost predicate NameGivesUp(number: string -> int, es: seq<Indexed>, gone: seq<Indexed>, name: Name, reserve: nat) {
    exists kept :: GivesUp(number, Group(es, name), Group(gone, name), kept, reserve)
  }

  /** The candidates of a listing, name by name. */
  ghost predicate Candidates(number: string -> int, es: seq<Indexed>, gone: seq<Indexed>, reserve: nat) {
    forall name :: NameGivesUp(number, es, gone, name, reserve)
  }

  /** A name with n entries has exactly max(0, n - reserve) candidates. */
  lemma CandidateCount(number: string -> int, es: seq<Indexed>, gone: seq<Indexed>, name: Name, reserve: nat)
    requires Candidates(number, es, gone, reserve)
    ensures |Group(gone, name)| == if |Group(es, name)| <= reserve then 0 else |Group(es, name)| - reserve
  {
    assert NameGivesUp(number, es, gone, name, reserve);
    var kept :| GivesUp(number, Group(es, name), Group(gone, name), kept, reserve);
    assert |multiset(Group(es, name))| == |multiset(kept)| + |multiset(Group(gone, name))|;
  }

  lemma {:induction false} GroupMembers(es: seq<Indexed>, name: Name)
    ensures forall e :: e in Group(es, name) <==> e in es && e.name == name
  {
    if es != [] {
      GroupMembers(es[..|es| - 1], name);
      assert es == es[..|es| - 1] + [es[|es| - 1]];
    }
  }

  lemma {:induction false} GroupConcat(a: seq<Indexed>, b: seq<Indexed>, name: Name)
    ensures Group(a + b, name) == Group(a, name) + Group(b, name)
  {
    if b == [] {
      assert a + b == a;
    } else {
      var init := b[..|b| - 1];
      GroupConcat(a, init, name);
      assert (a + b)[..|a + b| - 1] == a + init;
    }
  }

  lemma {:induction false} GroupOfOne(es: seq<Indexed>, own: Name, name: Name)
    requires forall e :: e in es ==> e.name == own
    ensures Group(es, name) == if name == own then es else []
  {
    if es != [] {
      GroupOfOne(es[..|es| - 1], own, name);
      assert es == es[..|es| - 1] + [es[|es| - 1]];
    }
  }

  /** Counts the versions of every name, and which names have more than `reserve`. */
  method CountVersions(es: seq<Indexed>, reserve: nat) returns (matched: set<Name>, versions: map<Name, seq<Indexed>>)
    ensures forall name :: name in matched <==> |Group(es, name)| > reserve
    ensures forall name :: name in matched ==> name in versions && versions[name] == Group(es, name)
  {
    var counter: map<Name, nat>;
    counter, matched, versions := map[], {}, map[];
    for i := 0 to |es|
      invariant forall name :: name !in versions ==> Group(es[..i], name) == []
      invariant forall name :: name in versions ==> versions[name] == Group(es[..i], name)
      invariant counter.Keys == versions.Keys && forall name :: name in counter ==> counter[name] == |versions[name]|
      invariant forall name :: name in matched <==> |Group(es[..i], name)| > reserve
    {
      var e := es[i];
      assert es[..i + 1][..i] == es[..i] && es[..i + 1][i] == e;
      var count := if e.name in counter then counter[e.name] else 0;
      count := count + 1;
      counter := counter[e.name := count];
      versions := versions[e.name := (if e.name in versions then versions[e.name] else []) + [e]];
      if count > reserve {
        matched := matched + {e.name};
      }
    }
    assert es[..|es|] == es;
  }

  /** Every name with more than `reserve` entries gives up the oldest ones. */
  method GetRetireServiceIDs(number: string -> int, es: seq<Indexed>, reserve: nat) returns (gone: seq<Indexed>)
    ensures Candidates(number, es, gone, reserve)
    ensures forall e :: e in gone ==> e in es
  {
    var matched, versions := CountVersions(es, reserve);
    gone := [];
    var todo := matched;
    while todo != {}
      invariant todo <= matched
      invariant forall name :: name in todo || name !in matched ==> Group(gone, name) == []
      invariant forall name :: name in matched && name !in todo ==> NameGivesUp(number, es, gone, name, reserve)
      invariant forall e :: e in gone ==> e in es
      decreases todo
    {
      var name :| name in todo;
      var sorted := SortNewestFirst(number, versions[name]);
      SortedGivesUp(number, es, name, sorted, reserve);
      forall other
        ensures NameGivesUp(number, es, gone + sorted[reserve..], name, reserve)
        ensures other != name ==> Group(gone + sorted[reserve..], other) == Group(gone, other)
        ensures other != name && NameGivesUp(number, es, gone, other, reserve) ==>
                  NameGivesUp(number, es, gone + sorted[reserve..], other, reserve)
      {
        TailGivesUp(number, es, gone, name, sorted, reserve, other);
      }
      gone := gone + sorted[reserve..];
      todo := todo - {name};
    }
    forall name ensures NameGivesUp(number, es, gone, name, reserve) {
      if name !in matched {
        assert GivesUp(number, Group(es, name), [], Group(es, name), reserve);
      }
    }
  }

  /** Appending the tail of one name settles that name and touches no other. */
  lemma {:induction false} TailGivesUp(number: string -> int, es: seq<Indexed>, gone: seq<Indexed>, name: Name, sorted: seq<Indexed>,
                    reserve: nat, other: Name)
    requires Group(gone, name) == [] && reserve <= |sorted| && forall e :: e in sorted ==> e.name == name
    requires GivesUp(number, Group(es, name), sorted[reserve..], sorted[..reserve], reserve)
    ensures NameGivesUp(number, es, gone + sorted[reserve..], name, reserve)
    ensures other != name ==> Group(gone + sorted[reserve..], other) == Group(gone, other)
    ensures other != name && NameGivesUp(number, es, gone, other, reserve) ==>
              NameGivesUp(number, es, gone + sorted[reserve..], other, reserve)
  {
    GroupWithTail(gone, sorted[reserve..], name, name);
    GroupWithTail(gone, sorted[reserve..], name, other);
  }

  lemma {:induction false} GroupWithTail(gone: seq<Indexed>, tail: seq<Indexed>, name: Name, other: Name)
    requires Group(gone, name) == [] && forall e :: e in tail ==> e.name == name
    ensures Group(gone + tail, other) == if other == name then tail else Group(gone, other)
  {
    GroupConcat(gone, tail, other);
    GroupOfOne(tail, name, other);
  }

  lemma SortedGivesUp(number: string -> int, es: seq<Indexed>, name: Name, sorted: seq<Indexed>, reserve: nat)
    requires NewestFirst(number, sorted)
    requires multiset(sorted) == multiset(Group(es, name)) && |Group(es, name)| > reserve
    ensures |sorted| > reserve && forall e :: e in sorted ==> e in es && e.name == name
    ensures GivesUp(number, Group(es, name), sorted[reserve..], sorted[..reserve], reserve)
  {
    GroupMembers(es, name);
    assert |multiset(sorted)| == |multiset(Group(es, name))|;
    assert sorted == sorted[..reserve] + sorted[reserve..];
    forall e | e in sorted ensures e in Group(es, name) {
      assert e in multiset(sorted);
    }
  }

  // ---------------------------------------------------------------- on the store

  function KeyOf(e: Indexed): Key {
    Index(e.name.tenant, e.name.environment, e.name.appId, e.name.serviceName, e.version)
  }

  /** The listing has every index entry once. */
  ghost predicate Lists(kvs: Kvs, es: seq<Indexed>) {
    && (forall e :: e in es <==> HasText(kvs, KeyOf(e), e.serviceId))
    && (forall i, j :: 0 <= i < j < |es| ==> es[i] != es[j])
  }

  method ListIndexes(kvs: Kvs) returns (es: seq<Indexed>)
    ensures Lists(kvs, es)
  {
    es := [];
    var todo := set k | k in kvs && k.Index? && kvs[k].value.Text?;
    ghost var all := todo;
    while todo != {}
      invariant todo <= all
      invariant forall e :: e in es <==> HasText(kvs, KeyOf(e), e.serviceId) && KeyOf(e) !in todo
      invariant forall i, j :: 0 <= i < j < |es| ==> es[i] != es[j]
      decreases todo
    {
      var k :| k in todo;
      var e := Indexed(Name(k.tenant, k.environment, k.appId, k.serviceName), k.version, kvs[k].value.text);
      assert KeyOf(e) == k && e !in es;
      assert forall f :: HasText(kvs, KeyOf(f), f.serviceId) && KeyOf(f) == k ==> f == e;
      es := es + [e];
      todo := todo - {k};
    }
  }

  ghost predicate Idle(kvs: Kvs, e: Indexed) {
    !HasInstances(kvs, e.name.tenant, e.serviceId)
  }

  method FilterNoInstance(kvs: Kvs, es: seq<Indexed>) returns (matched: seq<Indexed>)
    ensures forall e :: e in matched <==> e in es && Idle(kvs, e)
  {
    matched := [];
    for i := 0 to |es|
      invariant forall e :: e in matched <==> e in es[..i] && Idle(kvs, e)
    {
      assert es[..i + 1] == es[..i] + [es[i]];
      if exists k :: k in kvs && k.Instance? && k.tenant == es[i].name.tenant && Within(k.serviceId, es[i].serviceId) {
        continue;
      }
      matched := matched + [es[i]];
    }
    assert es[..|es|] == es;
  }

  /** A service without instances has no lease to revoke. */
  lemma IdleHasNoLease(s: State, tenant: string, serviceId: string)
    requires InstanceConsistent(s) && !HasInstances(s.kvs, tenant, serviceId)
    ensures DropLeases(s, LeaseNumbers(s.kvs, tenant, serviceId)) == s
  {
    forall k | k in s.kvs && k.Lease? ensures !Covers(Leases, tenant, serviceId, k) {
      assert Instance(k.tenant, k.serviceId, k.instanceId) in s.kvs;
    }
    assert LeaseNumbers(s.kvs, tenant, serviceId) == {};
  }

  ghost predicate SameInstances(kvs: Kvs, after: Kvs) {
    forall k: Key :: k.Instance? || k.Lease? ==> (k in kvs <==> k in after) && (k in kvs ==> kvs[k] == after[k])
  }

  /** Unregistering an idle service takes no instance along and keeps the store consistent. */
  lemma RemoveIdle(s: State, tenant: string, serviceId: string)
    requires IndexConsistent(s.kvs) && InstanceConsistent(s)
    requires HasRecord(s.kvs, tenant, serviceId) && !HasInstances(s.kvs, tenant, serviceId)
    ensures var after := Removed(s.kvs, tenant, serviceId, RecordAt(s.kvs, tenant, serviceId));
      IndexConsistent(after) && InstanceConsistent(s.(kvs := after)) && SameInstances(s.kvs, after)
  {
    var r := RecordAt(s.kvs, tenant, serviceId);
    RemovalFitsItself(s.kvs, tenant, serviceId);
    RemoveKeeps(s.kvs, tenant, serviceId, r);
    RemovedKeepsInstances(s, tenant, serviceId, r);
    forall k | k in s.kvs && (k.Instance? || k.Lease?) ensures !Below(k, tenant, serviceId) {
      if k.Lease? {
        assert Instance(k.tenant, k.serviceId, k.instanceId) in s.kvs;
      }
    }
  }

  /** An entry whose service is still there is still there itself. */
  ghost predicate Tracked(kvs: Kvs, e: Indexed) {
    HasRecord(kvs, e.name.tenant, e.serviceId) ==> HasText(kvs, KeyOf(e), e.serviceId)
  }

  /** Of all index entries the removal takes the one of the removed service. */
  lemma RemoveTakesOwnEntry(kvs: Kvs, e: Indexed, f: Indexed)
    requires IndexConsistent(kvs) && HasRecord(kvs, e.name.tenant, e.serviceId) && Tracked(kvs, e) && Tracked(kvs, f)
    ensures var after := Removed(kvs, e.name.tenant, e.serviceId, RecordAt(kvs, e.name.tenant, e.serviceId));
      && Tracked(after, f)
      && (HasText(after, KeyOf(f), f.serviceId) <==> HasText(kvs, KeyOf(f), f.serviceId) && KeyOf(f) != KeyOf(e))
  {
    assert IndexOwned(kvs, KeyOf(e));
  }

  lemma RemovalFitsItself(kvs: Kvs, tenant: string, serviceId: string)
    requires IndexConsistent(kvs) && HasRecord(kvs, tenant, serviceId)
    ensures RemovalFits(kvs, tenant, serviceId, RecordAt(kvs, tenant, serviceId))
  {
  }

  /** Retires what the plan asks for, when nothing else runs: an index entry goes exactly when it is a candidate,
      its service has no instances, and it is not the service center itself. */
  method RetireService(db: Backend, reserve: nat, self: string)
    returns (ghost es: seq<Indexed>, ghost gone: seq<Indexed>)
    requires IndexConsistent(db.kvs) && InstanceConsistent(db.Contents())
    modifies db
    ensures Lists(old(db.kvs), es) && Candidates(V.NumberOrZero, es, gone, reserve)
    ensures forall e :: e in es ==>
      (HasText(db.kvs, KeyOf(e), e.serviceId) <==>
         !(e in gone && Idle(old(db.kvs), e) && e.serviceId != self))
    ensures IndexConsistent(db.kvs) && InstanceConsistent(db.Contents()) && SameInstances(old(db.kvs), db.kvs)
  {
    var indexes := ListIndexes(db.kvs);
    var candidates := GetRetireServiceIDs(V.NumberOrZero, indexes, reserve);
    var matched := FilterNoInstance(db.kvs, candidates);
    assert DistinctKeys(indexes);
    UnregisterManyService(db, matched, self, indexes);
    es, gone := indexes, candidates;
  }

  lemma SameInstancesSameIdle(kvs: Kvs, now: Kvs, after: Kvs, e: Indexed)
    requires SameInstances(kvs, now)
    ensures Idle(kvs, e) ==> Idle(now, e)
    ensures SameInstances(now, after) ==> SameInstances(kvs, after)
  {
    if HasInstances(now, e.name.tenant, e.serviceId) {
      var k :| k in now && k.Instance? && k.tenant == e.name.tenant && Within(k.serviceId, e.serviceId);
      assert k in kvs;
    }
  }

  /** Which entries are left after `done` has been worked off. */
  ghost predicate Left(kvs: Kvs, es: seq<Indexed>, done: seq<Indexed>, self: string) {
    forall e :: e in es ==>
      (Tracked(kvs, e) && (HasText(kvs, KeyOf(e), e.serviceId) <==> !(e in done && e.serviceId != self)))
  }

  ghost predicate DistinctKeys(es: seq<Indexed>) {
    forall e, f :: e in es && f in es && KeyOf(e) == KeyOf(f) ==> e == f
  }

  method UnregisterManyService(db: Backend, keys: seq<Indexed>, self: string, ghost es: seq<Indexed>)
    requires IndexConsistent(db.kvs) && InstanceConsistent(db.Contents()) && Left(db.kvs, es, [], self)
    requires DistinctKeys(es) && forall e :: e in keys ==> e in es && Idle(db.kvs, e)
    modifies db
    ensures Left(db.kvs, es, keys, self)
    ensures IndexConsistent(db.kvs) && InstanceConsistent(db.Contents()) && SameInstances(old(db.kvs), db.kvs)
  {
    for i := 0 to |keys|
      invariant IndexConsistent(db.kvs) && InstanceConsistent(db.Contents()) && SameInstances(old(db.kvs), db.kvs)
      invariant Left(db.kvs, es, keys[..i], self)
    {
      ghost var now := db.kvs;
      SameInstancesSameIdle(old(db.kvs), now, now, keys[i]);
      UnregisterOne(db, keys[i], self, es);
      SameInstancesSameIdle(old(db.kvs), now, db.kvs, keys[i]);
      assert keys[..i + 1] == keys[..i] + [keys[i]];
    }
    assert keys[..|keys|] == keys;
  }

  method UnregisterOne(db: Backend, e: Indexed, self: string, ghost es: seq<Indexed>)
    requires IndexConsistent(db.kvs) && InstanceConsistent(db.Contents()) && e in es && Idle(db.kvs, e)
    requires forall f :: f in es ==> Tracked(db.kvs, f) && (KeyOf(f) == KeyOf(e) ==> f == e)
    modifies db
    ensures IndexConsistent(db.kvs) && InstanceConsistent(db.Contents()) && SameInstances(old(db.kvs), db.kvs)
    ensures forall f :: f in es ==>
      && Tracked(db.kvs, f)
      && (HasText(db.kvs, KeyOf(f), f.serviceId) <==>
            HasText(old(db.kvs), KeyOf(f), f.serviceId) && !(f == e && e.serviceId != self))
  {
    ghost var s := db.Contents();
    IdleHasNoLease(s, e.name.tenant, e.serviceId);
    if HasRecord(db.kvs, e.name.tenant, e.serviceId) && e.serviceId != self {
      RemoveIdle(s, e.name.tenant, e.serviceId);
      forall f | f in es
        ensures var after := Removed(s.kvs, e.name.tenant, e.serviceId, RecordAt(s.kvs, e.name.tenant, e.serviceId));
          Tracked(after, f) &&
          (HasText(after, KeyOf(f), f.serviceId) <==> HasText(s.kvs, KeyOf(f), f.serviceId) && f != e)
      {
        RemoveTakesOwnEntry(s.kvs, e, f);
      }
    } else if HasText(s.kvs, KeyOf(e), e.serviceId) {
      EntryNeedsRecord(s.kvs, e);
    }
    var _ := UnregisterService(db, e.name.tenant, e.serviceId, true, self, false);
  }

  lemma EntryNeedsRecord(kvs: Kvs, e: Indexed)
    requires IndexConsistent(kvs) && HasText(kvs, KeyOf(e), e.serviceId)
    ensures HasRecord(kvs, e.name.tenant, e.serviceId)
  {
    assert IndexOwned(kvs, KeyOf(e));
  }
}
