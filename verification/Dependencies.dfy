/** Dependency rules: which providers a consumer uses, and the inverse list under each provider. The two are
    separate documents, updated from computed create and delete lists. */
module Dependencies {
  import opened Etcd
  import opened Options
  import opened Paths

  datatype Rule = Rule(tenant: string, environment: string, appId: string, serviceName: string, version: string)

  const ALL_VERSIONS: string := "0.0.0+"

  function NameArgs(r: Rule): seq<string> {
    ["/cse-sr", "ms", "dep-rules"] + [r.tenant] + ["p", r.environment, r.appId, r.serviceName]
  }

  /** The provider rule key; rules are compared through it. */
  function ToString(r: Rule): string {
    Join(NameArgs(r) + [r.version])
  }

  ghost predicate IsRule(r: Rule) {
    IsTenant(r.tenant) && Plain(r.environment) && Plain(r.appId) && Plain(r.serviceName) && Plain(r.version)
  }

  ghost predicate AreRules(rs: seq<Rule>) {
    forall r :: r in rs ==> IsRule(r)
  }

  /** The same provider, whatever the version. */
  predicate SameName(a: Rule, b: Rule) {
    a.(version := "") == b.(version := "")
  }

  /** `s` up to and including its last "/". */
  function UpToLastSlash(s: string): string {
    if s == "" || s[|s| - 1] == '/' then s else UpToLastSlash(s[..|s| - 1])
  }

  predicate DiffServiceVersion(a: Rule, b: Rule) {
    ToString(a) != ToString(b) && UpToLastSlash(ToString(a)) == UpToLastSlash(ToString(b))
  }

  // ---------------------------------------------------------------- comparing strings compares rules

  lemma {:induction false} CutsAtLastSlash(head: string, tail: string)
    requires Plain(tail) && (head == "" || head[|head| - 1] == '/')
    ensures UpToLastSlash(head + tail) == head
  {
    if tail == "" {
      assert head + tail == head;
    } else {
      CutsAtLastSlash(head, tail[..|tail| - 1]);
      assert (head + tail)[..|head + tail| - 1] == head + tail[..|tail| - 1];
    }
  }

  function NameString(r: Rule): string {
    Join(NameArgs(r)) + SPLIT
  }

  lemma StringParts(r: Rule)
    requires IsRule(r)
    ensures ToString(r) == NameString(r) + r.version && UpToLastSlash(ToString(r)) == NameString(r)
  {
    JoinAppend(NameArgs(r), r.version);
    CutsAtLastSlash(NameString(r), r.version);
  }

  lemma NameSplits(r: Rule)
    requires IsRule(r)
    ensures Split(Join(NameArgs(r))) ==
      SplitAll(["/cse-sr", "ms", "dep-rules"]) + Split(r.tenant) + ["p", r.environment, r.appId, r.serviceName]
  {
    SplitAround(["/cse-sr", "ms", "dep-rules"], r.tenant, ["p", r.environment, r.appId, r.serviceName]);
  }

  lemma SplitAround(a: seq<string>, t: string, c: seq<string>)
    requires |a| > 0 && forall x :: x in c ==> Plain(x)
    ensures Split(Join(a + [t] + c)) == SplitAll(a) + Split(t) + c
  {
    SplitAllConcat(a, [t]);
    SplitAllConcat(a + [t], c);
    SplitJoin(a + [t] + c);
    assert [t][..0] == [] && SplitAll([t]) == Split(t);
    SplitAllPlain(c);
  }

  lemma NameStringExact(a: Rule, b: Rule)
    requires IsRule(a) && IsRule(b)
    ensures NameString(a) == NameString(b) <==> SameName(a, b)
  {
    if NameString(a) == NameString(b) {
      assert Join(NameArgs(a)) == NameString(a)[..|NameString(a)| - 1];
      assert Join(NameArgs(b)) == NameString(b)[..|NameString(b)| - 1];
      NameSplits(a);
      NameSplits(b);
      var p := TenantParts(a.tenant);
      var q := TenantParts(b.tenant);
      SameTail(SplitAll(["/cse-sr", "ms", "dep-rules"]), p, q, ["p", a.environment, a.appId, a.serviceName],
               ["p", b.environment, b.appId, b.serviceName]);
      var x, y := ["p", a.environment, a.appId, a.serviceName], ["p", b.environment, b.appId, b.serviceName];
      assert x[1] == y[1] && x[2] == y[2] && x[3] == y[3];
    }
  }

  /** On rules without stray "/", the string comparisons mean what they are named after. */
  lemma StringComparisonExact(a: Rule, b: Rule)
    requires IsRule(a) && IsRule(b)
    ensures ToString(a) == ToString(b) <==> a == b
    ensures DiffServiceVersion(a, b) <==> SameName(a, b) && a.version != b.version
  {
    StringParts(a);
    StringParts(b);
    NameStringExact(a, b);
    assert a.version == ToString(a)[|NameString(a)|..];
    assert b.version == ToString(b)[|NameString(b)|..];
  }

  // ---------------------------------------------------------------- scans

  method ContainServiceDependency(services: seq<Rule>, service: Rule) returns (r: bool)
    requires AreRules(services) && IsRule(service)
    ensures r <==> service in services
  {
    for i := 0 to |services|
      invariant service !in services[..i]
    {
      StringComparisonExact(service, services[i]);
      if ToString(service) == ToString(services[i]) {
        return true;
      }
      assert services[..i + 1] == services[..i] + [services[i]];
    }
    assert services[..|services|] == services;
    return false;
  }

  /** The first rule of the same name with another version. */
  function FirstOther(services: seq<Rule>, service: Rule): Option<Rule> {
    if services == [] then None
    else if SameName(services[0], service) && services[0] != service then Some(services[0])
    else FirstOther(services[1..], service)
  }

  /** No rule in front of it qualifies. */
  lemma {:induction false} FirstOtherExact(services: seq<Rule>, service: Rule, i: nat)
    requires i < |services| && SameName(services[i], service) && services[i] != service
    requires forall j :: 0 <= j < i ==> !(SameName(services[j], service) && services[j] != service)
    ensures FirstOther(services, service) == Some(services[i])
  {
    if i > 0 {
      FirstOtherExact(services[1..], service, i - 1);
    }
  }

  method IsNeedUpdate(services: seq<Rule>, service: Rule) returns (r: Option<Rule>)
    requires AreRules(services) && IsRule(service)
    ensures r == FirstOther(services, service)
  {
    for i := 0 to |services|
      invariant FirstOther(services, service) == FirstOther(services[i..], service)
    {
      StringComparisonExact(services[i], service);
      if DiffServiceVersion(services[i], service) {
        return Some(services[i]);
      }
      assert services[i..][1..] == services[i + 1..];
    }
    return None;
  }

  // ---------------------------------------------------------------- validating a request

  function Normalize(consumer: Rule, p: Rule): Rule {
    p.(appId := if p.appId == "" then consumer.appId else p.appId, version := ALL_VERSIONS)
  }

  /** Each name occurs with one version only. */
  ghost predicate OnePerName(rs: seq<Rule>) {
    forall a, b :: a in rs && b in rs && SameName(a, b) ==> a == b
  }

  ghost predicate NoDuplicateNames(consumer: Rule, providers: seq<Rule>) {
    forall i, j :: 0 <= i < j < |providers| ==> Normalize(consumer, providers[i]) != Normalize(consumer, providers[j])
  }

  ghost function Strings(rules: seq<Rule>): set<string> {
    set r | r in rules :: ToString(r)
  }

  lemma StringsAppend(rules: seq<Rule>, r: Rule)
    ensures Strings(rules + [r]) == Strings(rules) + {ToString(r)}
  {
    assert forall x :: x in rules + [r] <==> x in rules || x == r;
    forall s | s in Strings(rules) + {ToString(r)} ensures s in Strings(rules + [r]) {
      var x :| (x in rules || x == r) && s == ToString(x);
      assert x in rules + [r];
    }
  }

  lemma StringsExact(rules: seq<Rule>, r: Rule)
    requires AreRules(rules) && IsRule(r)
    ensures ToString(r) in Strings(rules) <==> r in rules
  {
    forall x | x in rules ensures ToString(x) == ToString(r) <==> x == r {
      StringComparisonExact(x, r);
    }
  }

  /** The first `i` providers have names, differ, and are completed in `infos`. */
  ghost predicate Completed(consumer: Rule, providers: seq<Rule>, infos: seq<Rule>) {
    && |infos| == |providers| && NoDuplicateNames(consumer, providers)
    && forall j :: 0 <= j < |providers| ==> providers[j].serviceName != "" && infos[j] == Normalize(consumer, providers[j])
  }

  lemma CompletedAppend(consumer: Rule, providers: seq<Rule>, infos: seq<Rule>, p: Rule)
    requires Completed(consumer, providers, infos) && p.serviceName != ""
    ensures NoDuplicateNames(consumer, providers + [p]) <==> Normalize(consumer, p) !in infos
    ensures Normalize(consumer, p) !in infos ==> Completed(consumer, providers + [p], infos + [Normalize(consumer, p)])
  {
    var info := Normalize(consumer, p);
    if info in infos {
      var j :| 0 <= j < |infos| && infos[j] == info;
      assert Normalize(consumer, (providers + [p])[j]) == Normalize(consumer, (providers + [p])[|providers|]);
    }
  }

  lemma NoDuplicatesInPrefix(consumer: Rule, providers: seq<Rule>, i: nat)
    requires i <= |providers| && NoDuplicateNames(consumer, providers)
    ensures NoDuplicateNames(consumer, providers[..i])
  {
  }

  /** The request with its defaults filled in, or none when a name is missing or occurs twice. */
  method ParamsChecker(consumer: Rule, providers: seq<Rule>) returns (r: Option<seq<Rule>>)
    requires AreRules(providers) && IsRule(consumer)
    ensures r.Some? <==> (forall p :: p in providers ==> p.serviceName != "") && NoDuplicateNames(consumer, providers)
    ensures r.Some? ==>
              (|r.value| == |providers| &&
               forall i :: 0 <= i < |providers| ==> r.value[i] == Normalize(consumer, providers[i]))
  {
    var flag: set<string> := {};
    var infos: seq<Rule> := [];
    for i := 0 to |providers|
      invariant Completed(consumer, providers[..i], infos) && AreRules(infos) && flag == Strings(infos)
    {
      var info := providers[i];
      assert info in providers && providers[..i + 1] == providers[..i] + [info];
      if |info.serviceName| == 0 {
        return None;
      }
      if |info.appId| == 0 {
        info := info.(appId := consumer.appId);
      }
      info := info.(version := ALL_VERSIONS);
      CompletedAppend(consumer, providers[..i], infos, providers[i]);
      StringsExact(infos, info);
      if ToString(info) in flag {
        if NoDuplicateNames(consumer, providers) {
          NoDuplicatesInPrefix(consumer, providers, i + 1);
          assert false;
        }
        return None;
      }
      StringsAppend(infos, info);
      flag := flag + {ToString(info)};
      infos := infos + [info];
    }
    assert providers[..|providers|] == providers;
    return Some(infos);
  }

  /** Two providers of a request collide exactly when they agree on everything but the version, a missing application
      standing for the consumer's; what is completed asks for all versions. */
  lemma CollisionExact(consumer: Rule, a: Rule, b: Rule)
    ensures Normalize(consumer, a) == Normalize(consumer, b) <==>
      && a.tenant == b.tenant && a.environment == b.environment && a.serviceName == b.serviceName
      && (a.appId == b.appId || (a.appId == "" && b.appId == consumer.appId) || (b.appId == "" && a.appId == consumer.appId))
    ensures Normalize(consumer, a).version == "0.0.0+"
    ensures a.appId != "" ==> SameName(Normalize(consumer, a), a)
    ensures a.appId == "" ==> SameName(Normalize(consumer, a), a.(appId := consumer.appId))
  {
  }

  /** A request that is accepted asks for one version per name, also before its defaults are filled in:
      the stored rules are taken from the request itself, not from the completed copy. */
  lemma CheckedRequestIsOnePerName(consumer: Rule, providers: seq<Rule>)
    requires NoDuplicateNames(consumer, providers)
    ensures OnePerName(providers)
  {
    forall a, b | a in providers && b in providers && SameName(a, b) ensures a == b {
      var i :| 0 <= i < |providers| && providers[i] == a;
      var j :| 0 <= j < |providers| && providers[j] == b;
      assert Normalize(consumer, a) == Normalize(consumer, b);
    }
  }

  // ---------------------------------------------------------------- create and delete lists

  /** The members of `xs` that are in `ys`, in order. */
  function Inside(xs: seq<Rule>, ys: seq<Rule>): seq<Rule> {
    if xs == [] then []
    else
      var init, last := xs[..|xs| - 1], xs[|xs| - 1];
      if last in ys then Inside(init, ys) + [last] else Inside(init, ys)
  }

  function Outside(xs: seq<Rule>, ys: seq<Rule>): seq<Rule> {
    if xs == [] then []
    else
      var init, last := xs[..|xs| - 1], xs[|xs| - 1];
      if last in ys then Outside(init, ys) else Outside(init, ys) + [last]
  }

  /** The stored rules that requested rules of another version replace. */
  function Replaced(requested: seq<Rule>, stored: seq<Rule>): seq<Rule> {
    if requested == [] then []
    else
      var init, last := requested[..|requested| - 1], requested[|requested| - 1];
      if last !in stored && FirstOther(stored, last).Some?
      then Replaced(init, stored) + [FirstOther(stored, last).value] else Replaced(init, stored)
  }

  lemma {:induction false} FilterMembers(xs: seq<Rule>, ys: seq<Rule>)
    ensures forall r :: r in Inside(xs, ys) <==> r in xs && r in ys
    ensures forall r :: r in Outside(xs, ys) <==> r in xs && r !in ys
  {
    if xs != [] {
      FilterMembers(xs[..|xs| - 1], ys);
      assert xs == xs[..|xs| - 1] + [xs[|xs| - 1]];
    }
  }

  lemma {:induction false} FirstOtherMember(services: seq<Rule>, service: Rule)
    ensures FirstOther(services, service).Some? ==>
      FirstOther(services, service).value in services && SameName(FirstOther(services, service).value, service) &&
      FirstOther(services, service).value != service
    ensures FirstOther(services, service).None? ==> forall r :: r in services && SameName(r, service) ==> r == service
  {
    if services != [] {
      FirstOtherMember(services[1..], service);
      assert services == [services[0]] + services[1..];
    }
  }

  lemma {:induction false} ReplacedMembers(requested: seq<Rule>, stored: seq<Rule>)
    ensures forall r :: r in Replaced(requested, stored) <==>
      exists q :: q in requested && q !in stored && FirstOther(stored, q) == Some(r)
    ensures forall r :: r in Replaced(requested, stored) ==> r in stored
  {
    if requested != [] {
      var init, last := requested[..|requested| - 1], requested[|requested| - 1];
      ReplacedMembers(init, stored);
      FirstOtherMember(stored, last);
      assert requested == init + [last];
      forall r ensures r in Replaced(requested, stored) <==>
        exists q :: q in requested && q !in stored && FirstOther(stored, q) == Some(r)
      {
        if r in Replaced(init, stored) {
          var q :| q in init && q !in stored && FirstOther(stored, q) == Some(r);
          assert q in requested;
        }
        if exists q :: q in requested && q !in stored && FirstOther(stored, q) == Some(r) {
          var q :| q in requested && q !in stored && FirstOther(stored, q) == Some(r);
          assert q in init || q == last;
        }
      }
    }
  }

  /** The rules a consumer has after an update. */
  function NewRules(requested: seq<Rule>, stored: seq<Rule>, override: bool): seq<Rule> {
    if override then requested else Outside(requested, stored) + Outside(stored, Replaced(requested, stored))
  }

  function DeleteList(requested: seq<Rule>, stored: seq<Rule>, override: bool): seq<Rule> {
    if override then Outside(stored, requested) else Replaced(requested, stored)
  }

  function CreateList(requested: seq<Rule>, stored: seq<Rule>, override: bool): seq<Rule> {
    if override then Outside(requested, Inside(stored, requested)) else Outside(requested, stored)
  }

  class Dependency {
    const consumer: Rule
    var providersRule: seq<Rule>
    var deleteList: seq<Rule>
    var createList: seq<Rule>

    constructor (consumer: Rule, providers: seq<Rule>)
      ensures this.consumer == consumer && providersRule == providers && deleteList == [] && createList == []
    {
      this.consumer, providersRule, deleteList, createList := consumer, providers, [], [];
    }

    method SetDep(create: seq<Rule>, exist: seq<Rule>, delete: seq<Rule>)
      requires createList == [] && deleteList == []
      modifies this`createList, this`deleteList
      ensures createList == create && deleteList == delete
    {
      if |create| == 0 && |exist| == 0 && |delete| == 0 {
        return;
      }
      if |delete| != 0 {
        deleteList := delete;
      }
      if |create| != 0 {
        createList := create;
      }
    }

    method ParseAddOrUpdateRules(stored: seq<Rule>)
      requires createList == [] && deleteList == [] && AreRules(stored) && AreRules(providersRule)
      modifies this
      ensures providersRule == NewRules(old(providersRule), stored, false)
      ensures deleteList == DeleteList(old(providersRule), stored, false)
      ensures createList == CreateList(old(providersRule), stored, false)
    {
      var create, delete, exist := [], [], [];
      for i := 0 to |providersRule|
        invariant unchanged(this)
        invariant create == Outside(providersRule[..i], stored) && delete == Replaced(providersRule[..i], stored)
      {
        var rule := providersRule[i];
        assert providersRule[..i + 1][..i] == providersRule[..i] && rule in providersRule;
        var ok := ContainServiceDependency(stored, rule);
        if ok {
          continue;
        }
        create := create + [rule];
        var update := IsNeedUpdate(stored, rule);
        if update.Some? {
          delete := delete + [update.value];
        }
      }
      assert providersRule[..|providersRule|] == providersRule;
      ReplacedMembers(providersRule, stored);
      assert AreRules(delete);
      exist := ExistingRules(stored, delete);
      providersRule := create + exist;
      SetDep(create, exist, delete);
    }

    method ParseOverrideRules(stored: seq<Rule>)
      requires createList == [] && deleteList == [] && AreRules(stored) && AreRules(providersRule)
      modifies this
      ensures providersRule == NewRules(old(providersRule), stored, true)
      ensures deleteList == DeleteList(old(providersRule), stored, true)
      ensures createList == CreateList(old(providersRule), stored, true)
    {
      var create, delete, exist := [], [], [];
      for i := 0 to |stored|
        invariant unchanged(this)
        invariant delete == Outside(stored[..i], providersRule) && exist == Inside(stored[..i], providersRule)
      {
        assert stored[..i + 1][..i] == stored[..i] && stored[i] in stored;
        var ok := ContainServiceDependency(providersRule, stored[i]);
        if !ok {
          delete := delete + [stored[i]];
        } else {
          exist := exist + [stored[i]];
        }
      }
      assert stored[..|stored|] == stored;
      FilterMembers(stored, providersRule);
      create := ExistingRules(providersRule, exist);
      SetDep(create, exist, delete);
    }
  }

  /** The rules that a list does not contain. */
  method ExistingRules(rules: seq<Rule>, gone: seq<Rule>) returns (r: seq<Rule>)
    requires AreRules(rules) && AreRules(gone)
    ensures r == Outside(rules, gone)
  {
    r := [];
    for i := 0 to |rules|
      invariant r == Outside(rules[..i], gone)
    {
      assert rules[..i + 1][..i] == rules[..i] && rules[i] in rules;
      var ok := ContainServiceDependency(gone, rules[i]);
      if !ok {
        r := r + [rules[i]];
      }
    }
    assert rules[..|rules|] == rules;
  }

  /** Who remains, who is new, who goes: the new rules are the old ones minus the deleted plus the created,
      and nothing is both. */
  lemma {:induction false} ListsAddUp(requested: seq<Rule>, stored: seq<Rule>, override: bool)
    ensures forall r :: r in NewRules(requested, stored, override) <==>
      r in CreateList(requested, stored, override) || (r in stored && r !in DeleteList(requested, stored, override))
    ensures forall r :: r in DeleteList(requested, stored, override) ==> r in stored && r !in CreateList(requested, stored, override)
  {
    FilterMembers(stored, requested);
    FilterMembers(requested, stored);
    FilterMembers(requested, Inside(stored, requested));
    FilterMembers(stored, Replaced(requested, stored));
    ReplacedMembers(requested, stored);
  }

  /** An add-or-update request with one version per name leaves one version per name exactly when there was
      one before; every requested rule is there, and every rule with an unrequested name stays. */
  lemma {:induction false} UpdateKeepsOnePerName(requested: seq<Rule>, stored: seq<Rule>)
    requires OnePerName(requested)
    ensures OnePerName(NewRules(requested, stored, false)) <==> OnePerName(stored)
    ensures forall r :: r in requested ==> r in NewRules(requested, stored, false)
    ensures forall r :: r in stored && (forall q :: q in requested ==> !SameName(q, r)) ==> r in NewRules(requested, stored, false)
  {
    FilterMembers(requested, stored);
    FilterMembers(stored, Replaced(requested, stored));
    ReplacedMembers(requested, stored);
    forall q ensures FirstOther(stored, q).Some? ==> SameName(FirstOther(stored, q).value, q) {
      FirstOtherMember(stored, q);
    }
    if OnePerName(stored) {
      UpdateLeavesOne(requested, stored);
    } else {
      var a, b :| a in stored && b in stored && SameName(a, b) && a != b;
      TwoVersionsStay(requested, stored, a, b);
    }
  }

  lemma {:induction false} UpdateLeavesOne(requested: seq<Rule>, stored: seq<Rule>)
    requires OnePerName(requested) && OnePerName(stored)
    ensures OnePerName(NewRules(requested, stored, false))
  {
    FilterMembers(requested, stored);
    FilterMembers(stored, Replaced(requested, stored));
    var after := NewRules(requested, stored, false);
    forall a, b | a in after && b in after && SameName(a, b) ensures a == b {
      if a in requested && a !in stored && b in stored {
        ReplacedByRequest(requested, stored, a, b);
      } else if b in requested && b !in stored && a in stored {
        ReplacedByRequest(requested, stored, b, a);
      }
    }
  }

  /** A stored rule of a requested name with another version is replaced. */
  lemma {:induction false} ReplacedByRequest(requested: seq<Rule>, stored: seq<Rule>, q: Rule, r: Rule)
    requires OnePerName(stored) && q in requested && q !in stored && r in stored && SameName(q, r)
    ensures r in Replaced(requested, stored)
  {
    ReplacedMembers(requested, stored);
    FirstOtherMember(stored, q);
    assert FirstOther(stored, q) == Some(r);
  }

  /** Of two stored versions of one name at most one is replaced, and then by a third. */
  lemma {:induction false} TwoVersionsStay(requested: seq<Rule>, stored: seq<Rule>, a: Rule, b: Rule)
    requires OnePerName(requested) && a in stored && b in stored && SameName(a, b) && a != b
    ensures !OnePerName(NewRules(requested, stored, false))
  {
    FilterMembers(requested, stored);
    FilterMembers(stored, Replaced(requested, stored));
    ReplacedMembers(requested, stored);
    var after := NewRules(requested, stored, false);
    if a in Replaced(requested, stored) {
      var q :| q in requested && q !in stored && FirstOther(stored, q) == Some(a);
      FirstOtherMember(stored, q);
      if b in Replaced(requested, stored) {
        var p :| p in requested && p !in stored && FirstOther(stored, p) == Some(b);
        FirstOtherMember(stored, p);
        assert SameName(p, q);
      }
      assert q in after && b in after && SameName(q, b);
    } else if b in Replaced(requested, stored) {
      var q :| q in requested && q !in stored && FirstOther(stored, q) == Some(b);
      FirstOtherMember(stored, q);
      assert q in after && a in after && SameName(q, a);
    } else {
      assert a in after && b in after;
    }
  }

  // ---------------------------------------------------------------- the documents

  type Docs = map<Rule, seq<Rule>>

  function DocOf(docs: Docs, r: Rule): seq<Rule> {
    if r in docs then docs[r] else []
  }

  /** A consumer's rules and the inverse lists under the providers. */
  datatype Rules = Rules(byConsumer: Docs, byProvider: Docs)

  /** Provider `p` is in the document of consumer `c` exactly when `c` is in the document of `p`. */
  ghost predicate TwoWay(s: Rules) {
    forall c, p :: p in DocOf(s.byConsumer, c) <==> c in DocOf(s.byProvider, p)
  }

  /** Removing every occurrence from an array. */
  function Pulled(xs: seq<Rule>, r: Rule): seq<Rule> {
    Outside(xs, [r])
  }

  function AddedToSet(xs: seq<Rule>, r: Rule): seq<Rule> {
    if r in xs then xs else xs + [r]
  }

  function PullFrom(docs: Docs, providers: seq<Rule>, consumer: Rule): Docs {
    if providers == [] then docs
    else
      var rest, p := PullFrom(docs, providers[..|providers| - 1], consumer), providers[|providers| - 1];
      if p in rest then rest[p := Pulled(rest[p], consumer)] else rest
  }

  function AddTo(docs: Docs, providers: seq<Rule>, consumer: Rule): Docs {
    if providers == [] then docs
    else
      var rest, p := AddTo(docs, providers[..|providers| - 1], consumer), providers[|providers| - 1];
      rest[p := AddedToSet(DocOf(rest, p), consumer)]
  }

  /** An update whose old rules come from `read` and whose writes go to `s`. */
  function AfterSync(read: Rules, s: Rules, consumer: Rule, requested: seq<Rule>, override: bool): Rules {
    var stored := DocOf(read.byConsumer, consumer);
    var rules := NewRules(requested, stored, override);
    Rules(
      if rules == [] then s.byConsumer - {consumer} else s.byConsumer[consumer := rules],
      AddTo(PullFrom(s.byProvider, DeleteList(requested, stored, override), consumer),
            CreateList(requested, stored, override), consumer))
  }

  lemma {:induction false} PullFromAt(docs: Docs, providers: seq<Rule>, consumer: Rule, p: Rule, c: Rule)
    ensures c in DocOf(PullFrom(docs, providers, consumer), p) <==>
      c in DocOf(docs, p) && !(c == consumer && p in providers)
  {
    if providers != [] {
      var init, last := providers[..|providers| - 1], providers[|providers| - 1];
      PullFromAt(docs, init, consumer, p, c);
      assert providers == init + [last];
      FilterMembers(DocOf(PullFrom(docs, init, consumer), p), [consumer]);
    }
  }

  lemma {:induction false} AddToAt(docs: Docs, providers: seq<Rule>, consumer: Rule, p: Rule, c: Rule)
    ensures c in DocOf(AddTo(docs, providers, consumer), p) <==>
      c in DocOf(docs, p) || (c == consumer && p in providers)
  {
    if providers != [] {
      var init, last := providers[..|providers| - 1], providers[|providers| - 1];
      AddToAt(docs, init, consumer, p, c);
      assert providers == init + [last];
    }
  }

  /** Besides the rules an update creates or deletes, the consumer has the rules that were read. */
  ghost predicate ReadFits(read: Rules, s: Rules, consumer: Rule, requested: seq<Rule>, override: bool) {
    var stored := DocOf(read.byConsumer, consumer);
    forall p :: p !in CreateList(requested, stored, override) && p !in DeleteList(requested, stored, override) ==>
      (p in stored <==> p in DocOf(s.byConsumer, consumer))
  }

  /** Who is in which document after an update. */
  lemma {:induction false} SyncAt(read: Rules, s: Rules, consumer: Rule, requested: seq<Rule>, override: bool, c: Rule, p: Rule)
    requires TwoWay(s)
    ensures var stored := DocOf(read.byConsumer, consumer);
      var create, delete := CreateList(requested, stored, override), DeleteList(requested, stored, override);
      var after := AfterSync(read, s, consumer, requested, override);
      if c == consumer then
        && (p in DocOf(after.byConsumer, c) <==> p in create || (p in stored && p !in delete))
        && (c in DocOf(after.byProvider, p) <==> p in create || (p in DocOf(s.byConsumer, c) && p !in delete))
      else
        && (p in DocOf(after.byConsumer, c) <==> p in DocOf(s.byConsumer, c))
        && (c in DocOf(after.byProvider, p) <==> p in DocOf(s.byConsumer, c))
  {
    var stored := DocOf(read.byConsumer, consumer);
    var create, delete := CreateList(requested, stored, override), DeleteList(requested, stored, override);
    ListsAddUp(requested, stored, override);
    PullFromAt(s.byProvider, delete, consumer, p, c);
    AddToAt(PullFrom(s.byProvider, delete, consumer), create, consumer, p, c);
    assert p in DocOf(s.byConsumer, c) <==> c in DocOf(s.byProvider, p);
  }

  /** Both kinds of update keep the two directions in agreement exactly when the rules that were read still are the
      consumer's, besides those the update creates or deletes. */
  lemma {:induction false} SyncTwoWayExact(read: Rules, s: Rules, consumer: Rule, requested: seq<Rule>, override: bool)
    requires TwoWay(s)
    ensures TwoWay(AfterSync(read, s, consumer, requested, override)) <==> ReadFits(read, s, consumer, requested, override)
  {
    if ReadFits(read, s, consumer, requested, override) {
      FittingKeepsTwoWay(read, s, consumer, requested, override);
    }
    if TwoWay(AfterSync(read, s, consumer, requested, override)) {
      TwoWayNeedsFit(read, s, consumer, requested, override);
    }
  }

  lemma {:induction false} FittingKeepsTwoWay(read: Rules, s: Rules, consumer: Rule, requested: seq<Rule>, override: bool)
    requires TwoWay(s) && ReadFits(read, s, consumer, requested, override)
    ensures TwoWay(AfterSync(read, s, consumer, requested, override))
  {
    var after := AfterSync(read, s, consumer, requested, override);
    forall c, p ensures p in DocOf(after.byConsumer, c) <==> c in DocOf(after.byProvider, p) {
      SyncAt(read, s, consumer, requested, override, c, p);
    }
  }

  lemma {:induction false} TwoWayNeedsFit(read: Rules, s: Rules, consumer: Rule, requested: seq<Rule>, override: bool)
    requires TwoWay(s) && TwoWay(AfterSync(read, s, consumer, requested, override))
    ensures ReadFits(read, s, consumer, requested, override)
  {
    var stored, after := DocOf(read.byConsumer, consumer), AfterSync(read, s, consumer, requested, override);
    forall p | p !in CreateList(requested, stored, override) && p !in DeleteList(requested, stored, override)
      ensures p in stored <==> p in DocOf(s.byConsumer, consumer)
    {
      SyncAt(read, s, consumer, requested, override, consumer, p);
      assert p in DocOf(after.byConsumer, consumer) <==> consumer in DocOf(after.byProvider, p);
    }
  }

  /** An update on the current rules keeps the two directions in agreement and changes no other consumer. */
  lemma {:induction false} SyncKeepsTwoWay(s: Rules, consumer: Rule, requested: seq<Rule>, override: bool)
    requires TwoWay(s)
    ensures var after := AfterSync(s, s, consumer, requested, override);
      && TwoWay(after)
      && DocOf(after.byConsumer, consumer) == NewRules(requested, DocOf(s.byConsumer, consumer), override)
      && forall c :: c != consumer ==> DocOf(after.byConsumer, c) == DocOf(s.byConsumer, c)
  {
    SyncTwoWayExact(s, s, consumer, requested, override);
  }

  /** After an override the consumer has exactly the requested rules, its document is gone when there are none, and it
      is in the lists of exactly the requested providers; the lists keep every other consumer. */
  lemma {:induction false} OverrideExact(s: Rules, consumer: Rule, requested: seq<Rule>)
    requires TwoWay(s)
    ensures var after := AfterSync(s, s, consumer, requested, true);
      && DocOf(after.byConsumer, consumer) == requested && (consumer in after.byConsumer <==> requested != [])
      && (forall p :: consumer in DocOf(after.byProvider, p) <==> p in requested)
      && (forall c, p :: c != consumer ==> (c in DocOf(after.byProvider, p) <==> c in DocOf(s.byProvider, p)))
  {
    var after := AfterSync(s, s, consumer, requested, true);
    SyncKeepsTwoWay(s, consumer, requested, true);
    forall p ensures consumer in DocOf(after.byProvider, p) <==> p in requested {
      assert p in DocOf(after.byConsumer, consumer) <==> consumer in DocOf(after.byProvider, p);
    }
    forall c, p | c != consumer ensures c in DocOf(after.byProvider, p) <==> c in DocOf(s.byProvider, p) {
      SyncAt(s, s, consumer, requested, true, c, p);
    }
  }

  /** After an add-or-update, on rules with one version per name, the consumer has exactly the requested rules and the
      stored ones whose name was not requested, and is in the lists of exactly these providers. */
  lemma {:induction false} AddOrUpdateExact(s: Rules, consumer: Rule, requested: seq<Rule>)
    requires TwoWay(s) && OnePerName(requested) && OnePerName(DocOf(s.byConsumer, consumer))
    ensures var after := AfterSync(s, s, consumer, requested, false);
      && (forall p :: p in DocOf(after.byConsumer, consumer) <==>
            p in requested || (p in DocOf(s.byConsumer, consumer) && forall q :: q in requested ==> !SameName(q, p)))
      && (forall p :: consumer in DocOf(after.byProvider, p) <==> p in DocOf(after.byConsumer, consumer))
      && (forall c, p :: c != consumer ==> (c in DocOf(after.byProvider, p) <==> c in DocOf(s.byProvider, p)))
  {
    var stored, after := DocOf(s.byConsumer, consumer), AfterSync(s, s, consumer, requested, false);
    SyncKeepsTwoWay(s, consumer, requested, false);
    UpdateKeepsOnePerName(requested, stored);
    ListsAddUp(requested, stored, false);
    FilterMembers(requested, stored);
    forall c, p | c != consumer ensures c in DocOf(after.byProvider, p) <==> c in DocOf(s.byProvider, p) {
      SyncAt(s, s, consumer, requested, false, c, p);
    }
  }

  /** A service that is deleted as a consumer, by an override without providers, is in no provider's list. */
  lemma {:induction false} DeletedConsumerIsNowhere(s: Rules, consumer: Rule)
    requires TwoWay(s)
    ensures var after := AfterSync(s, s, consumer, [], true);
      && consumer !in after.byConsumer
      && forall p :: consumer !in DocOf(after.byProvider, p)
  {
    SyncKeepsTwoWay(s, consumer, [], true);
    var after := AfterSync(s, s, consumer, [], true);
    forall p ensures consumer !in DocOf(after.byProvider, p) {
      assert p !in DocOf(after.byConsumer, consumer);
    }
  }

  // ---------------------------------------------------------------- runs of updates

  /** An update and the state its old rules were read from. */
  datatype Update = Update(consumer: Rule, requested: seq<Rule>, override: bool, readAt: nat)

  ghost predicate IsRun(states: seq<Rules>, us: seq<Update>) {
    && |states| == |us| + 1
    && states[0] == Rules(map[], map[])
    && forall i :: 0 <= i < |us| ==>
         us[i].readAt <= i &&
         states[i + 1] == AfterSync(states[us[i].readAt], states[i], us[i].consumer, us[i].requested, us[i].override)
  }

  ghost predicate StepFits(states: seq<Rules>, us: seq<Update>, i: nat)
    requires IsRun(states, us) && i < |us|
  {
    ReadFits(states[us[i].readAt], states[i], us[i].consumer, us[i].requested, us[i].override)
  }

  /** In every interleaving of updates, with old rules of any age, the directions agree all along exactly when every
      update fits. */
  lemma {:induction false} TwoWayInEveryRun(states: seq<Rules>, us: seq<Update>, n: nat)
    requires IsRun(states, us) && n < |states|
    ensures (forall m :: 0 <= m <= n ==> TwoWay(states[m])) <==> forall i :: 0 <= i < n ==> StepFits(states, us, i)
  {
    if n > 0 {
      TwoWayInEveryRun(states, us, n - 1);
      if TwoWay(states[n - 1]) {
        var u := us[n - 1];
        SyncTwoWayExact(states[u.readAt], states[n - 1], u.consumer, u.requested, u.override);
        assert StepFits(states, us, n - 1) <==> TwoWay(states[n]);
      }
    }
  }

  /** No rule occurs twice. */
  predicate Distinct(xs: seq<Rule>) {
    forall i, j :: 0 <= i < j < |xs| ==> xs[i] != xs[j]
  }

  ghost predicate DocsDistinct(docs: Docs) {
    forall r :: Distinct(DocOf(docs, r))
  }

  lemma {:induction false} OutsideDistinct(xs: seq<Rule>, ys: seq<Rule>)
    requires Distinct(xs)
    ensures Distinct(Outside(xs, ys))
  {
    if xs != [] {
      var init := xs[..|xs| - 1];
      OutsideDistinct(init, ys);
      FilterMembers(init, ys);
      assert xs[|xs| - 1] !in init;
    }
  }

  lemma ConcatDistinct(xs: seq<Rule>, ys: seq<Rule>)
    requires Distinct(xs) && Distinct(ys) && forall r :: r in xs ==> r !in ys
    ensures Distinct(xs + ys)
  {
    forall i, j | 0 <= i < |xs| && 0 <= j < |ys| ensures xs[i] != ys[j] {
      assert xs[i] in xs;
    }
  }

  lemma NewRulesDistinct(requested: seq<Rule>, stored: seq<Rule>, override: bool)
    requires Distinct(requested) && Distinct(stored)
    ensures Distinct(NewRules(requested, stored, override))
  {
    var kept := Outside(stored, Replaced(requested, stored));
    OutsideDistinct(requested, stored);
    OutsideDistinct(stored, Replaced(requested, stored));
    FilterMembers(requested, stored);
    FilterMembers(stored, Replaced(requested, stored));
    ConcatDistinct(Outside(requested, stored), kept);
  }

  lemma {:induction false} PullFromDistinct(docs: Docs, providers: seq<Rule>, consumer: Rule)
    requires DocsDistinct(docs)
    ensures DocsDistinct(PullFrom(docs, providers, consumer))
  {
    if providers != [] {
      var rest, p := PullFrom(docs, providers[..|providers| - 1], consumer), providers[|providers| - 1];
      PullFromDistinct(docs, providers[..|providers| - 1], consumer);
      assert Distinct(DocOf(rest, p));
      OutsideDistinct(DocOf(rest, p), [consumer]);
      forall r ensures Distinct(DocOf(PullFrom(docs, providers, consumer), r)) {
        assert Distinct(DocOf(rest, r));
      }
    }
  }

  lemma {:induction false} AddToDistinct(docs: Docs, providers: seq<Rule>, consumer: Rule)
    requires DocsDistinct(docs)
    ensures DocsDistinct(AddTo(docs, providers, consumer))
  {
    if providers != [] {
      var rest := AddTo(docs, providers[..|providers| - 1], consumer);
      AddToDistinct(docs, providers[..|providers| - 1], consumer);
      forall r ensures Distinct(DocOf(AddTo(docs, providers, consumer), r)) {
        assert Distinct(DocOf(rest, r));
      }
    }
  }

  lemma SyncKeepsDistinct(read: Rules, s: Rules, consumer: Rule, requested: seq<Rule>, override: bool)
    requires DocsDistinct(read.byConsumer) && DocsDistinct(s.byConsumer) && DocsDistinct(s.byProvider) && Distinct(requested)
    ensures var after := AfterSync(read, s, consumer, requested, override);
      DocsDistinct(after.byConsumer) && DocsDistinct(after.byProvider)
  {
    var stored, after := DocOf(read.byConsumer, consumer), AfterSync(read, s, consumer, requested, override);
    NewRulesDistinct(requested, stored, override);
    PullFromDistinct(s.byProvider, DeleteList(requested, stored, override), consumer);
    AddToDistinct(PullFrom(s.byProvider, DeleteList(requested, stored, override), consumer),
                  CreateList(requested, stored, override), consumer);
    forall r ensures Distinct(DocOf(after.byConsumer, r)) {
      assert Distinct(DocOf(s.byConsumer, r));
    }
  }

  /** In every interleaving, with old rules of any age, requests without repeated rules leave no document, in either
      direction, with a repeated entry. */
  lemma {:induction false} DistinctInEveryRun(states: seq<Rules>, us: seq<Update>, n: nat)
    requires IsRun(states, us) && n < |states| && forall i :: 0 <= i < n ==> Distinct(us[i].requested)
    ensures forall m :: 0 <= m <= n ==> DocsDistinct(states[m].byConsumer) && DocsDistinct(states[m].byProvider)
  {
    if n > 0 {
      DistinctInEveryRun(states, us, n - 1);
      var u := us[n - 1];
      SyncKeepsDistinct(states[u.readAt], states[n - 1], u.consumer, u.requested, u.override);
    }
  }

  /** After every sequence of updates on current rules the directions agree, and a consumer that was only ever updated
      with one version per name has one version per name. */
  lemma {:induction false} EveryRunIsTwoWay(states: seq<Rules>, us: seq<Update>, n: nat)
    requires IsRun(states, us) && n < |states| && forall i :: 0 <= i < n ==> us[i].readAt == i
    ensures TwoWay(states[n])
    ensures (forall i :: 0 <= i < n ==> OnePerName(us[i].requested)) ==>
              forall c :: OnePerName(DocOf(states[n].byConsumer, c))
  {
    if n > 0 {
      EveryRunIsTwoWay(states, us, n - 1);
      var before, u := states[n - 1], us[n - 1];
      SyncKeepsTwoWay(before, u.consumer, u.requested, u.override);
      if forall i :: 0 <= i < n ==> OnePerName(us[i].requested) {
        UpdateKeepsOnePerName(u.requested, DocOf(before.byConsumer, u.consumer));
      }
    }
  }

  lemma OneRule(read: Rules, s: Rules, consumer: Rule, p: Rule)
    requires consumer !in read.byConsumer
    ensures AfterSync(read, s, consumer, [p], true) ==
      Rules(s.byConsumer[consumer := [p]], s.byProvider[p := AddedToSet(DocOf(s.byProvider, p), consumer)])
  {
    assert Outside([p], Inside([], [p])) == [p] by {
      assert [p][..0] == [];
    }
    assert PullFrom(s.byProvider, [], consumer) == s.byProvider;
    assert [p][..0] == [] && AddTo(s.byProvider, [], consumer) == s.byProvider;
  }

  /** Two overrides of one consumer that both read no rules: the provider of the first keeps the consumer, whose
      document no longer names it. */
  lemma TwoOverridesDisagree(consumer: Rule, p: Rule, q: Rule)
    requires p != q
    ensures exists states: seq<Rules>, us: seq<Update> :: IsRun(states, us) && !TwoWay(states[|states| - 1])
  {
    var none := Rules(map[], map[]);
    var one := AfterSync(none, none, consumer, [p], true);
    var two := AfterSync(none, one, consumer, [q], true);
    OneRule(none, none, consumer, p);
    OneRule(none, one, consumer, q);
    assert consumer in DocOf(two.byProvider, p) && p !in DocOf(two.byConsumer, consumer);
    var states, us := [none, one, two], [Update(consumer, [p], true, 0), Update(consumer, [q], true, 0)];
    assert IsRun(states, us) && !TwoWay(states[|states| - 1]);
  }

  class RuleStore {
    var byConsumer: Docs
    var byProvider: Docs

    function Contents(): Rules
      reads this
    {
      Rules(byConsumer, byProvider)
    }

    method UpdateDeps(dep: Dependency)
      modifies this
      ensures byProvider == AddTo(PullFrom(old(byProvider), dep.deleteList, dep.consumer), dep.createList, dep.consumer)
      ensures byConsumer == if dep.providersRule == [] then old(byConsumer) - {dep.consumer}
                            else old(byConsumer)[dep.consumer := dep.providersRule]
    {
      for i := 0 to |dep.deleteList|
        invariant byConsumer == old(byConsumer)
        invariant byProvider == PullFrom(old(byProvider), dep.deleteList[..i], dep.consumer)
      {
        var r := dep.deleteList[i];
        assert dep.deleteList[..i + 1][..i] == dep.deleteList[..i];
        if r in byProvider {
          byProvider := byProvider[r := Pulled(byProvider[r], dep.consumer)];
        }
      }
      assert dep.deleteList[..|dep.deleteList|] == dep.deleteList;
      ghost var pulled := byProvider;
      for i := 0 to |dep.createList|
        invariant byConsumer == old(byConsumer)
        invariant byProvider == AddTo(pulled, dep.createList[..i], dep.consumer)
      {
        var r := dep.createList[i];
        assert dep.createList[..i + 1][..i] == dep.createList[..i];
        byProvider := byProvider[r := AddedToSet(DocOf(byProvider, r), dep.consumer)];
      }
      assert dep.createList[..|dep.createList|] == dep.createList;
      if |dep.providersRule| == 0 {
        byConsumer := byConsumer - {dep.consumer};
      } else {
        byConsumer := byConsumer[dep.consumer := dep.providersRule];
      }
    }

    method SyncDependencyRule(consumer: Rule, providers: seq<Rule>, override: bool)
      requires IsRule(consumer) && AreRules(providers) && AreRules(DocOf(byConsumer, consumer))
      modifies this
      ensures Contents() == AfterSync(old(Contents()), old(Contents()), consumer, providers, override)
    {
      var dep := new Dependency(consumer, providers);
      var stored := DocOf(byConsumer, consumer);
      if override {
        dep.ParseOverrideRules(stored);
      } else {
        dep.ParseAddOrUpdateRules(stored);
      }
      UpdateDeps(dep);
    }

    method DeleteDependencyForDeleteService(service: Rule)
      requires IsRule(service) && AreRules(DocOf(byConsumer, service)) && TwoWay(Contents())
      modifies this
      ensures TwoWay(Contents()) && service !in byConsumer
      ensures forall p :: service !in DocOf(byProvider, p)
    {
      SyncKeepsTwoWay(Contents(), service, [], true);
      DeletedConsumerIsNowhere(Contents(), service);
      SyncDependencyRule(service, [], true);
    }
  }
}
