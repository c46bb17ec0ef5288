/** The strings behind the typed keys: keys are segments joined with "/", read back by splitting, and listed and
    deleted by string prefix. Service ids may contain a "/" themselves; the other fields do not. */
module Paths {
  import opened Etcd
  import opened Options

  const SPLIT: string := "/"

  function Join(args: seq<string>): string
    requires |args| > 0
  {
    if |args| == 1 then args[0] else Join(args[..|args| - 1]) + SPLIT + args[|args| - 1]
  }

  function Split(s: string): (r: seq<string>)
    ensures |r| > 0
  {
    if s == "" then [""]
    else if s[0] == '/' then [""] + Split(s[1..])
    else var r := Split(s[1..]); [[s[0]] + r[0]] + r[1..]
  }

  predicate Plain(s: string) {
    '/' !in s
  }

  /** A tenant is a domain and a project. */
  ghost predicate IsTenant(t: string) {
    exists domain, project :: Plain(domain) && Plain(project) && t == domain + SPLIT + project
  }

  lemma {:induction false} SplitPlain(s: string)
    requires Plain(s)
    ensures Split(s) == [s]
  {
    if s != "" {
      SplitPlain(s[1..]);
      assert [s[0]] + s[1..] == s;
    }
  }

  lemma {:induction false} SplitAppend(a: string, b: string)
    ensures Split(a + SPLIT + b) == Split(a) + Split(b)
  {
    if a == "" {
      assert (a + SPLIT + b)[1..] == b;
    } else {
      SplitAppend(a[1..], b);
      var s := a + SPLIT + b;
      assert s[1..] == a[1..] + SPLIT + b && s[0] == a[0];
      SplitFront(a);
      SplitFront(s);
      FrontAppend(a[0], Split(a[1..]), Split(b));
    }
  }

  /** What one more character in front does to the segments. */
  function Front(c: char, r: seq<string>): seq<string>
    requires |r| > 0
  {
    if c == '/' then [""] + r else [[c] + r[0]] + r[1..]
  }

  lemma SplitFront(s: string)
    requires s != ""
    ensures Split(s) == Front(s[0], Split(s[1..]))
  {
  }

  lemma FrontAppend(c: char, r: seq<string>, rest: seq<string>)
    requires |r| > 0
    ensures Front(c, r + rest) == Front(c, r) + rest
  {
    if c != '/' {
      assert (r + rest)[1..] == r[1..] + rest;
    }
  }

  function SplitAll(args: seq<string>): seq<string> {
    if args == [] then [] else SplitAll(args[..|args| - 1]) + Split(args[|args| - 1])
  }

  lemma {:induction false} SplitJoin(args: seq<string>)
    requires |args| > 0
    ensures Split(Join(args)) == SplitAll(args)
  {
    if |args| == 1 {
      assert args[..0] == [];
    } else {
      var init := args[..|args| - 1];
      SplitJoin(init);
      SplitAppend(Join(init), args[|args| - 1]);
    }
  }

  lemma {:induction false} SplitAllConcat(xs: seq<string>, ys: seq<string>)
    ensures SplitAll(xs + ys) == SplitAll(xs) + SplitAll(ys)
  {
    if ys == [] {
      assert xs + ys == xs;
    } else {
      var init, last := ys[..|ys| - 1], ys[|ys| - 1];
      SplitAllConcat(xs, init);
      SplitAllAppend(xs + init, last);
      SplitAllAppend(init, last);
      assert xs + ys == (xs + init) + [last] && ys == init + [last];
      Join3(SplitAll(xs), SplitAll(init), Split(last));
    }
  }

  lemma {:induction false} SplitAllAppend(xs: seq<string>, x: string)
    ensures SplitAll(xs + [x]) == SplitAll(xs) + Split(x)
  {
    assert (xs + [x])[..|xs|] == xs;
  }

  lemma Join3(a: seq<string>, b: seq<string>, c: seq<string>)
    ensures (a + b) + c == a + (b + c)
  {
  }

  lemma {:induction false} SplitAllPlain(args: seq<string>)
    requires forall a :: a in args ==> Plain(a)
    ensures SplitAll(args) == args
  {
    if args != [] {
      SplitAllPlain(args[..|args| - 1]);
      SplitPlain(args[|args| - 1]);
    }
  }

  // ---------------------------------------------------------------- keys

  /** The two fixed segments that tell the families below "/cse-sr" apart. */
  function Kind(k: Key): seq<string> {
    match k
    case Service(_, _) => ["ms", "files"]
    case Index(_, _, _, _, _) => ["ms", "indexes"]
    case Alias(_, _, _, _, _) => ["ms", "alias"]
    case Tag(_, _) => ["ms", "tags"]
    case Instance(_, _, _) => ["inst", "files"]
    case Lease(_, _, _) => ["inst", "leases"]
    case Schema(_, _, _) => ["ms", "schemas"]
    case SchemaSummary(_, _, _) => ["ms", "schema-sum"]
    case SchemaRef(_, _, _) => ["ms", "schema-ref"]
    case SchemaContent(_, _) => ["ms", "schema-content"]
    case DependencyQueue(_, _, _) => ["ms", "dep-queue"]
    case AccountOf(_) => ["accounts"]
    case RoleOf(_) => ["roles"]
    case RoleAccount(_, _) => ["idx-role-account"]
  }

  function Tenant(k: Key): seq<string> {
    if k.AccountOf? || k.RoleOf? || k.RoleAccount? then [] else [k.tenant]
  }

  /** The service id in a key, the one field that may contain a "/". */
  function ServiceIds(k: Key): seq<string> {
    match k
    case Service(_, id) => [id]
    case Tag(_, id) => [id]
    case Instance(_, s, _) => [s]
    case Lease(_, s, _) => [s]
    case Schema(_, s, _) => [s]
    case SchemaSummary(_, s, _) => [s]
    case SchemaRef(_, s, _) => [s]
    case DependencyQueue(_, c, _) => [c]
    case _ => []
  }

  function Others(k: Key): seq<string> {
    match k
    case Service(_, _) => []
    case Index(_, env, app, name, version) => [env, app, name, version]
    case Alias(_, env, app, alias, version) => [env, app, alias, version]
    case Tag(_, _) => []
    case Instance(_, _, i) => [i]
    case Lease(_, _, i) => [i]
    case Schema(_, _, x) => [x]
    case SchemaSummary(_, _, x) => [x]
    case SchemaRef(_, _, x) => [x]
    case SchemaContent(_, h) => [h]
    case DependencyQueue(_, _, u) => [u]
    case AccountOf(name) => [name]
    case RoleOf(name) => [name]
    case RoleAccount(role, name) => [role, name]
  }

  function Fields(k: Key): seq<string> {
    ServiceIds(k) + Others(k)
  }

  function Args(k: Key): seq<string> {
    ["/cse-sr"] + Kind(k) + Tenant(k) + Fields(k)
  }

  /** The string a key is stored under. */
  function Render(k: Key): string {
    Join(Args(k))
  }

  /** What the validators of the source guarantee: service ids are any text, all other fields are free of "/". */
  ghost predicate WellFormed(k: Key) {
    && (forall f :: f in Others(k) ==> Plain(f))
    && (forall t :: t in Tenant(k) ==> IsTenant(t))
  }

  lemma TenantParts(t: string) returns (parts: seq<string>)
    requires IsTenant(t)
    ensures parts == Split(t) && |parts| == 2 && parts[0] + SPLIT + parts[1] == t
  {
    var domain, project :| Plain(domain) && Plain(project) && t == domain + SPLIT + project;
    SplitAppend(domain, project);
    SplitPlain(domain);
    SplitPlain(project);
    parts := [domain, project];
  }

  lemma SplitTenant(k: Key)
    requires WellFormed(k)
    ensures SplitAll(Tenant(k)) == if Tenant(k) == [] then [] else Split(k.tenant)
    ensures |SplitAll(Tenant(k))| == if Tenant(k) == [] then 0 else 2
  {
    if Tenant(k) != [] {
      assert k.tenant in Tenant(k);
      var _ := TenantParts(k.tenant);
      assert Tenant(k)[..0] == [];
    }
  }

  function Segments(k: Key): seq<string> {
    ["", "cse-sr"] + Kind(k) + SplitAll(Tenant(k)) + (SplitAll(ServiceIds(k)) + Others(k))
  }

  lemma RootSplits()
    ensures Split("/cse-sr") == ["", "cse-sr"]
  {
    SplitAppend("", "cse-sr");
    SplitPlain("");
    SplitPlain("cse-sr");
    assert "/cse-sr" == "" + SPLIT + "cse-sr";
  }

  lemma SplitFour(a: seq<string>, b: seq<string>, c: seq<string>, d: seq<string>)
    requires |a| > 0
    ensures Split(Join(a + b + c + d)) == SplitAll(a) + SplitAll(b) + SplitAll(c) + SplitAll(d)
  {
    SplitAllConcat(a, b);
    SplitAllConcat(a + b, c);
    SplitAllConcat(a + b + c, d);
    SplitJoin(a + b + c + d);
  }

  lemma KindSplits(k: Key)
    ensures SplitAll(Kind(k)) == Kind(k)
  {
    SplitAllPlain(Kind(k));
  }

  lemma SplitKey(kind: seq<string>, tenant: seq<string>, fields: seq<string>)
    requires SplitAll(kind) == kind
    ensures Split(Join(["/cse-sr"] + kind + tenant + fields)) == ["", "cse-sr"] + kind + SplitAll(tenant) + SplitAll(fields)
  {
    SplitFour(["/cse-sr"], kind, tenant, fields);
    RootSplits();
    assert ["/cse-sr"][..0] == [];
    assert SplitAll(["/cse-sr"]) == ["", "cse-sr"];
  }

  /** Splitting a stored key gives back its segments, those of the service id included. */
  lemma SplitRender(k: Key)
    requires WellFormed(k)
    ensures Split(Render(k)) == Segments(k)
  {
    KindSplits(k);
    SplitKey(Kind(k), Tenant(k), Fields(k));
    SplitAllConcat(ServiceIds(k), Others(k));
    SplitAllPlain(Others(k));
  }

  lemma {:induction false} JoinSplit(s: string)
    ensures Join(Split(s)) == s
  {
    if s != "" {
      JoinSplit(s[1..]);
      SplitFront(s);
      JoinFront(s[0], Split(s[1..]));
    }
  }

  lemma {:induction false} JoinFront(c: char, r: seq<string>)
    requires |r| > 0
    ensures Join(Front(c, r)) == [c] + Join(r)
  {
    if |r| == 1 {
      JoinFrontOne(c, r);
    } else {
      var init, last := r[..|r| - 1], r[|r| - 1];
      JoinFront(c, init);
      FrontAppend(c, init, [last]);
      assert r == init + [last];
      JoinAppend(Front(c, init), last);
      JoinAppend(init, last);
      assert [c] + Join(init) + SPLIT + last == [c] + (Join(init) + SPLIT + last);
    }
  }

  lemma JoinFrontOne(c: char, r: seq<string>)
    requires |r| == 1
    ensures Join(Front(c, r)) == [c] + Join(r)
  {
    if c == '/' {
      assert Front(c, r) == [""] + [r[0]];
      JoinAppend([""], r[0]);
    }
  }

  lemma KindsDiffer(kind: seq<string>, m: Key, head: seq<string>, x: seq<string>, y: seq<string>)
    requires |head| == 2 && (|kind| == 2 ==> kind[0] == "ms" || kind[0] == "inst")
    requires |kind| == 1 ==> kind[0] != "ms" && kind[0] != "inst"
    requires 1 <= |kind| <= 2 && head + kind + x == head + Kind(m) + y
    ensures kind == Kind(m)
  {
    var s, t := head + kind + x, head + Kind(m) + y;
    assert s[2] == kind[0] && t[2] == Kind(m)[0];
    if |kind| == 2 && |Kind(m)| == 2 {
      assert s[3] == kind[1] && t[3] == Kind(m)[1];
    }
  }

  lemma SameKind(k: Key, m: Key)
    requires Segments(k) == Segments(m)
    ensures Kind(k) == Kind(m)
  {
    var x, y := SplitAll(ServiceIds(k)) + Others(k), SplitAll(ServiceIds(m)) + Others(m);
    Associate(["", "cse-sr"], Kind(k), SplitAll(Tenant(k)), x);
    Associate(["", "cse-sr"], Kind(m), SplitAll(Tenant(m)), y);
    KindsDiffer(Kind(k), m, ["", "cse-sr"], SplitAll(Tenant(k)) + x, SplitAll(Tenant(m)) + y);
  }

  /** Different keys are stored under different strings, whatever their service ids are. */
  lemma RenderInjective(k: Key, m: Key)
    requires WellFormed(k) && WellFormed(m) && Render(k) == Render(m)
    ensures k == m
  {
    SplitRender(k);
    SplitRender(m);
    SameKind(k, m);
    SplitTenant(k);
    SplitTenant(m);
    SameShape(k, m);
    SameTail(["", "cse-sr"] + Kind(k), SplitAll(Tenant(k)), SplitAll(Tenant(m)),
             SplitAll(ServiceIds(k)) + Others(k), SplitAll(ServiceIds(m)) + Others(m));
    SameEnd(SplitAll(ServiceIds(k)), SplitAll(ServiceIds(m)), Others(k), Others(m));
    SameServiceIds(ServiceIds(k), ServiceIds(m));
    KeyFromParts(k, m);
  }

  lemma SameShape(k: Key, m: Key)
    requires Kind(k) == Kind(m)
    ensures |Tenant(k)| == |Tenant(m)| && |ServiceIds(k)| == |ServiceIds(m)| <= 1 && |Others(k)| == |Others(m)|
  {
    var x, y := Kind(k), Kind(m);
    assert x[0] == y[0] && |x| == |y|;
    if |x| == 2 {
      assert x[1] == y[1];
    }
  }

  lemma SameTail(head: seq<string>, t: seq<string>, u: seq<string>, a: seq<string>, b: seq<string>)
    requires head + t + a == head + u + b && |t| == |u|
    ensures t == u && a == b
  {
    var x, n, m := head + t + a, |head|, |t|;
    assert t == x[n..n + m] == u;
    assert a == x[n + m..] == b;
  }

  lemma SameEnd(s: seq<string>, t: seq<string>, a: seq<string>, b: seq<string>)
    requires s + a == t + b && |a| == |b|
    ensures s == t && a == b
  {
    assert s == (s + a)[..|s|] && t == (t + b)[..|t|];
    assert a == (s + a)[|s|..] && b == (t + b)[|t|..];
  }

  lemma SplitOne(s: string)
    ensures SplitAll([s]) == Split(s)
  {
    assert [s][..0] == [];
  }

  lemma SameServiceIds(a: seq<string>, b: seq<string>)
    requires |a| == |b| <= 1 && SplitAll(a) == SplitAll(b)
    ensures a == b
  {
    if |a| == 1 {
      assert a == [a[0]] && b == [b[0]];
      SplitOne(a[0]);
      SplitOne(b[0]);
      JoinSplit(a[0]);
      JoinSplit(b[0]);
    }
  }

  lemma KeyFromParts(k: Key, m: Key)
    requires WellFormed(k) && WellFormed(m) && Kind(k) == Kind(m) && SplitAll(Tenant(k)) == SplitAll(Tenant(m))
    requires ServiceIds(k) == ServiceIds(m) && Others(k) == Others(m)
    ensures k == m
  {
    SplitTenant(k);
    SplitTenant(m);
    assert Tenant(k) == Tenant(m) by {
      if Tenant(k) != [] {
        assert k.tenant in Tenant(k) && m.tenant in Tenant(m);
        var p := TenantParts(k.tenant);
        var q := TenantParts(m.tenant);
      }
    }
    SameFields(k, m);
  }

  lemma SameFields(k: Key, m: Key)
    requires Kind(k) == Kind(m) && Tenant(k) == Tenant(m) && ServiceIds(k) == ServiceIds(m) && Others(k) == Others(m)
    ensures k == m
  {
    var x, y := Kind(k), Kind(m);
    assert x[0] == y[0] && |x| == |y|;
    if |x| == 2 {
      assert x[1] == y[1];
      assert Tenant(k)[0] == Tenant(m)[0];
    }
    if ServiceIds(k) != [] {
      assert ServiceIds(k)[0] == ServiceIds(m)[0];
    }
    var f, g := Others(k), Others(m);
    if |f| > 0 {
      assert f[0] == g[0];
    }
    if |f| > 1 {
      assert f[1] == g[1];
    }
    if |f| > 2 {
      assert f[2] == g[2] && f[3] == g[3];
    }
  }

  /** The other fields have to be free of "/": keys of one family and tenant share a string exactly when their
      joined fields do, so a "/" in the last field can be moved into the service id. */
  lemma SameStringExact(k: Key, m: Key)
    requires Kind(k) == Kind(m) && Tenant(k) == Tenant(m)
    ensures Render(k) == Render(m) <==> Join(Fields(k)) == Join(Fields(m))
  {
    JoinHead(["/cse-sr"] + Kind(k) + Tenant(k), Fields(k), Fields(m));
  }

  lemma {:induction false} JoinHead(head: seq<string>, a: seq<string>, b: seq<string>)
    requires |head| > 0 && |a| > 0 && |b| > 0
    ensures Join(head + a) == Join(head + b) <==> Join(a) == Join(b)
  {
    JoinConcat(head, a);
    JoinConcat(head, b);
    SameAfter(Join(head) + SPLIT, Join(a), Join(b));
  }

  lemma SameAfter(h: string, a: string, b: string)
    ensures h + a == h + b <==> a == b
  {
    assert (h + a)[|h|..] == a && (h + b)[|h|..] == b;
  }

  lemma {:induction false} JoinConcat(xs: seq<string>, ys: seq<string>)
    requires |xs| > 0 && |ys| > 0
    ensures Join(xs + ys) == Join(xs) + SPLIT + Join(ys)
  {
    if |ys| == 1 {
      assert ys == [ys[0]];
      JoinAppend(xs, ys[0]);
    } else {
      var init, last := ys[..|ys| - 1], ys[|ys| - 1];
      JoinConcat(xs, init);
      assert xs + ys == (xs + init) + [last] && ys == init + [last];
      JoinAppend(xs + init, last);
      JoinAppend(init, last);
    }
  }

  lemma JoinAppend(args: seq<string>, a: string)
    requires |args| > 0
    ensures Join(args + [a]) == Join(args) + SPLIT + a
  {
    assert (args + [a])[..|args|] == args;
  }

  // ---------------------------------------------------------------- prefixes

  function FamilyKind(f: Family): seq<string> {
    match f
    case Schemas => ["ms", "schemas"]
    case Summaries => ["ms", "schema-sum"]
    case Refs => ["ms", "schema-ref"]
    case Instances => ["inst", "files"]
    case Leases => ["inst", "leases"]
  }

  function TenantArgs(f: Family, tenant: string): seq<string> {
    ["/cse-sr"] + FamilyKind(f) + [tenant]
  }

  /** The string that a search or a deletion by prefix names: the key of an empty last field. */
  function Prefix(f: Family, tenant: string, serviceId: string): string {
    Join(TenantArgs(f, tenant) + [serviceId] + [""])
  }

  predicate InFamily(f: Family, tenant: string, k: Key) {
    match f
    case Schemas => k.Schema? && k.tenant == tenant
    case Summaries => k.SchemaSummary? && k.tenant == tenant
    case Refs => k.SchemaRef? && k.tenant == tenant
    case Instances => k.Instance? && k.tenant == tenant
    case Leases => k.Lease? && k.tenant == tenant
  }

  lemma PrefixParts(f: Family, tenant: string, serviceId: string)
    ensures Prefix(f, tenant, serviceId) == Join(TenantArgs(f, tenant)) + SPLIT + (serviceId + SPLIT)
  {
    var args := TenantArgs(f, tenant);
    JoinAppend(args + [serviceId], "");
    JoinAppend(args, serviceId);
    Regroup(Join(args), serviceId, "");
  }

  lemma Regroup(h: string, s: string, x: string)
    ensures h + SPLIT + s + SPLIT + x == h + SPLIT + (s + SPLIT + x)
    ensures h + SPLIT + s + SPLIT + "" == h + SPLIT + (s + SPLIT)
  {
  }

  lemma FamilyParts(f: Family, tenant: string, k: Key)
    requires InFamily(f, tenant, k)
    ensures Render(k) == Join(TenantArgs(f, tenant)) + SPLIT + (k.serviceId + SPLIT + Others(k)[0])
  {
    var args := TenantArgs(f, tenant);
    assert Args(k) == args + [k.serviceId] + [Others(k)[0]];
    JoinAppend(args + [k.serviceId], Others(k)[0]);
    JoinAppend(args, k.serviceId);
    Regroup(Join(args), k.serviceId, Others(k)[0]);
  }

  /** Below one tenant: a field behind the last "/" cannot hide the end of a longer id. */
  lemma WithinExact(id: string, serviceId: string, x: string)
    requires Plain(x)
    ensures serviceId + SPLIT <= id + SPLIT + x <==> Within(id, serviceId)
  {
    var s, t := serviceId + SPLIT, id + SPLIT + x;
    assert forall i :: |id| < i < |t| ==> t[i] == x[i - |id| - 1];
    if s <= t {
      assert t[|serviceId|] == '/';
      assert id == t[..|id|] && serviceId == t[..|serviceId|];
      if |serviceId| < |id| {
        assert s == t[..|s|] == id[..|s|];
      }
    }
    if serviceId == id {
      assert s == t[..|s|];
    }
  }

  lemma CommonHead(h: string, a: string, b: string)
    ensures h + a <= h + b <==> a <= b
  {
    if h + a <= h + b {
      assert a == (h + a)[|h|..] == (h + b)[|h|..|h| + |a|] == b[..|a|];
    }
    if a <= b {
      assert (h + b)[..|h + a|] == h + a;
    }
  }

  lemma PrefixedIsInFamily(f: Family, tenant: string, serviceId: string, k: Key)
    requires WellFormed(k) && IsTenant(tenant) && Prefix(f, tenant, serviceId) <= Render(k)
    ensures InFamily(f, tenant, k)
  {
    var head := Join(TenantArgs(f, tenant));
    PrefixParts(f, tenant, serviceId);
    var key, rest := Render(k), Render(k)[|head| + 1..];
    assert key == head + SPLIT + rest;
    SplitAppend(head, rest);
    HeadSplits(f, tenant);
    var parts := TenantParts(tenant);
    SplitRender(k);
    UnderTenant(f, tenant, k, parts, Split(rest));
  }

  lemma HeadSplits(f: Family, tenant: string)
    ensures Split(Join(TenantArgs(f, tenant))) == ["", "cse-sr"] + FamilyKind(f) + Split(tenant)
  {
    FamilySplits(f);
    SplitKey(FamilyKind(f), [tenant], []);
    SplitOne(tenant);
    assert TenantArgs(f, tenant) + [] == TenantArgs(f, tenant);
  }

  lemma FamilySplits(f: Family)
    ensures SplitAll(FamilyKind(f)) == FamilyKind(f)
  {
    SplitAllPlain(FamilyKind(f));
  }

  lemma UnderTenant(f: Family, tenant: string, k: Key, parts: seq<string>, rest: seq<string>)
    requires WellFormed(k) && |parts| == 2 && parts[0] + SPLIT + parts[1] == tenant
    requires ["", "cse-sr"] + FamilyKind(f) + parts + rest == Segments(k)
    ensures InFamily(f, tenant, k)
  {
    var fields := SplitAll(ServiceIds(k)) + Others(k);
    Associate(["", "cse-sr"], FamilyKind(f), parts, rest);
    Associate(["", "cse-sr"], Kind(k), SplitAll(Tenant(k)), fields);
    KindsDiffer(FamilyKind(f), k, ["", "cse-sr"], parts + rest, SplitAll(Tenant(k)) + fields);
    FamilyOfKind(f, k);
    SplitTenant(k);
    assert k.tenant in Tenant(k);
    SameTail(["", "cse-sr"] + Kind(k), parts, SplitAll(Tenant(k)), rest, fields);
    var own := TenantParts(k.tenant);
  }

  lemma Associate(a: seq<string>, b: seq<string>, c: seq<string>, d: seq<string>)
    ensures a + b + c + d == a + b + (c + d)
  {
  }

  lemma FamilyOfKind(f: Family, k: Key)
    requires FamilyKind(f) == Kind(k)
    ensures Tenant(k) == [k.tenant] && InFamily(f, k.tenant, k)
  {
    assert FamilyKind(f)[0] == Kind(k)[0] && FamilyKind(f)[1] == Kind(k)[1];
  }

  /** A string prefix finds exactly the keys of that family and tenant whose service id is the given one or
      continues it behind a "/", for service ids of any form. */
  lemma PrefixExact(f: Family, tenant: string, serviceId: string, k: Key)
    requires WellFormed(k) && IsTenant(tenant)
    ensures Prefix(f, tenant, serviceId) <= Render(k) <==> Covers(f, tenant, serviceId, k)
  {
    if InFamily(f, tenant, k) {
      PrefixParts(f, tenant, serviceId);
      FamilyParts(f, tenant, k);
      CommonHead(Join(TenantArgs(f, tenant)) + SPLIT, serviceId + SPLIT, k.serviceId + SPLIT + Others(k)[0]);
      assert Others(k)[0] in Others(k);
      WithinExact(k.serviceId, serviceId, Others(k)[0]);
    } else if Prefix(f, tenant, serviceId) <= Render(k) {
      PrefixedIsInFamily(f, tenant, serviceId, k);
    }
  }

  // ---------------------------------------------------------------- reading keys back

  datatype KeyInfo = KeyInfo(tenant: string, fields: seq<string>)

  /** The tenant and the last `n` segments of a stored key. */
  function GetInfo(key: string, n: nat): Option<KeyInfo> {
    var keys := Split(key);
    var l := |keys|;
    if l < n + 2 then None else Some(KeyInfo(keys[l - n - 2] + SPLIT + keys[l - n - 1], keys[l - n..]))
  }

  lemma ReadsBack(key: string, head: seq<string>, parts: seq<string>, fields: seq<string>)
    requires |parts| == 2 && Split(key) == head + parts + fields
    ensures GetInfo(key, |fields|) == Some(KeyInfo(parts[0] + SPLIT + parts[1], fields))
  {
  }

  lemma {:induction false} SplitIsPlain(s: string)
    ensures forall a :: a in Split(s) ==> Plain(a)
  {
    if s != "" {
      SplitIsPlain(s[1..]);
      var r := Split(s[1..]);
      assert Plain(r[0]) by { assert r[0] in r; }
    }
  }

  /** Reading a stored key back gives the tenant and the fields it was made of exactly when its service id, if it
      has one, is free of "/". */
  lemma InfoExact(k: Key)
    requires WellFormed(k) && Tenant(k) != []
    ensures GetInfo(Render(k), |Fields(k)|) == Some(KeyInfo(k.tenant, Fields(k)))
      <==> forall s :: s in ServiceIds(k) ==> Plain(s)
  {
    ReadsPlain(Render(k), |Fields(k)|);
    if forall s :: s in ServiceIds(k) ==> Plain(s) {
      InfoRoundTrip(k);
    } else {
      var s :| s in ServiceIds(k) && !Plain(s);
      assert Fields(k)[0] == s;
    }
  }

  /** Whatever is read back is free of "/". */
  lemma ReadsPlain(key: string, n: nat)
    ensures GetInfo(key, n).Some? ==> forall f :: f in GetInfo(key, n).value.fields ==> Plain(f)
  {
    SplitIsPlain(key);
  }

  lemma InfoRoundTrip(k: Key)
    requires WellFormed(k) && Tenant(k) != [] && forall s :: s in ServiceIds(k) ==> Plain(s)
    ensures GetInfo(Render(k), |Fields(k)|) == Some(KeyInfo(k.tenant, Fields(k)))
  {
    SplitRender(k);
    assert k.tenant in Tenant(k);
    SplitTenant(k);
    SplitAllPlain(ServiceIds(k));
    var parts := TenantParts(k.tenant);
    ReadsBack(Render(k), ["", "cse-sr"] + Kind(k), parts, Fields(k));
  }

  /** The tenant that is read from a reference key. */
  function ReadTenant(k: Key): string
    requires k.SchemaRef?
  {
    match GetInfo(Render(k), 2)
    case None => ""
    case Some(info) => info.tenant
  }

  /** A reference of a service id with one "/" is read back under a tenant made of the project and the first
      half of the id. */
  lemma SlashShiftsTenant(domain: string, project: string, a: string, b: string, x: string)
    requires Plain(domain) && Plain(project) && Plain(a) && Plain(b) && Plain(x)
    ensures var k := SchemaRef(domain + SPLIT + project, a + SPLIT + b, x);
      WellFormed(k) && ReadTenant(k) == project + SPLIT + a
  {
    var k := SchemaRef(domain + SPLIT + project, a + SPLIT + b, x);
    assert IsTenant(k.tenant);
    SplitRender(k);
    SplitTwo(a, b);
    SplitTwo(domain, project);
    var head := ["", "cse-sr"] + Kind(k);
    Shift(head, domain, project, a, b, x);
    ReadsBack(Render(k), head + [domain], [project, a], [b, x]);
  }

  lemma SplitTwo(a: string, b: string)
    requires Plain(a) && Plain(b)
    ensures SplitAll([a + SPLIT + b]) == [a, b]
  {
    SplitOne(a + SPLIT + b);
    SplitAppend(a, b);
    SplitPlain(a);
    SplitPlain(b);
  }

  lemma Shift(head: seq<string>, d: string, p: string, a: string, b: string, x: string)
    ensures head + [d, p] + ([a, b] + [x]) == head + [d] + [p, a] + [b, x]
  {
  }
}
