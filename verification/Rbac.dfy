/** Accounts, roles and the index from roles to accounts. */
module Rbac {
  import opened Etcd
  import opened Options

  function IndexKeys(name: string, roles: seq<string>): set<Key> {
    set r | r in roles :: RoleAccount(r, name)
  }

  /** An account as it is read: the single role of the old format takes the place of the list. */
  function Compatible(a: Account): Account {
    if a.role == "" then a else a.(roles := [a.role], role := "")
  }

  predicate HasAccount(kvs: Kvs, name: string) {
    AccountOf(name) in kvs && kvs[AccountOf(name)].value.AccountInfo?
  }

  function GetAccount(kvs: Kvs, name: string): Option<Account> {
    if HasAccount(kvs, name) then Some(Compatible(kvs[AccountOf(name)].value.account)) else None
  }

  predicate HoldsRole(kvs: Kvs, name: string, role: string) {
    GetAccount(kvs, name).Some? && role in GetAccount(kvs, name).value.roles
  }

  /** The index has an entry for a role and an account exactly when that account exists and holds that role. */
  ghost predicate RolesIndexed(kvs: Kvs) {
    && (forall role, name :: RoleAccount(role, name) in kvs <==> HoldsRole(kvs, name, role))
    && (forall k :: k in kvs && k.AccountOf? ==> kvs[k].value.AccountInfo? && kvs[k].value.account.name == k.name)
  }

  /** The list the index is written from is the list the account is read with. */
  predicate RolesAsRead(a: Account) {
    a.role == "" || ((forall r :: r in a.roles ==> r == a.role) && a.role in a.roles)
  }

  // ---------------------------------------------------------------- operation lists

  function AccountOp(a: Account, put: bool): Op {
    if put then Put(AccountOf(a.name), AccountInfo(a), 0) else Delete(AccountOf(a.name))
  }

  function IndexOp(role: string, name: string, put: bool): Op {
    if put then Put(RoleAccount(role, name), Text(""), 0) else Delete(RoleAccount(role, name))
  }

  function WithAccount(kvs: Kvs, a: Account): Kvs {
    WithIndex(kvs[AccountOf(a.name) := Entry(AccountInfo(a), 0)], a.name, a.roles)
  }

  function WithIndex(kvs: Kvs, name: string, roles: seq<string>): Kvs {
    map k | k in kvs.Keys + IndexKeys(name, roles) :: if k in IndexKeys(name, roles) then Entry(Text(""), 0) else kvs[k]
  }

  function WithoutAccount(kvs: Kvs, a: Account): Kvs {
    kvs - ({AccountOf(a.name)} + IndexKeys(a.name, a.roles))
  }

  lemma IndexKeysAppend(name: string, roles: seq<string>, r: string)
    ensures IndexKeys(name, roles + [r]) == IndexKeys(name, roles) + {RoleAccount(r, name)}
  {
    assert forall x :: x in roles + [r] <==> x in roles || x == r;
    forall k | k in IndexKeys(name, roles) + {RoleAccount(r, name)} ensures k in IndexKeys(name, roles + [r]) {
      var x :| (x in roles || x == r) && k == RoleAccount(x, name);
      assert x in roles + [r];
    }
  }

  lemma WithIndexAppend(kvs: Kvs, name: string, roles: seq<string>, r: string)
    ensures WithIndex(kvs, name, roles + [r]) == WithIndex(kvs, name, roles)[RoleAccount(r, name) := Entry(Text(""), 0)]
    ensures kvs - IndexKeys(name, roles + [r]) == kvs - IndexKeys(name, roles) - {RoleAccount(r, name)}
  {
    IndexKeysAppend(name, roles, r);
  }

  method GenAccountOpts(ghost kvs: Kvs, ops: seq<Op>, a: Account, put: bool) returns (r: seq<Op>)
    requires forall op :: op in ops ==> !op.Put? || op.lease == 0
    ensures forall op :: op in r ==> !op.Put? || op.lease == 0
    ensures Apply(r, kvs) == if put then WithAccount(Apply(ops, kvs), a) else WithoutAccount(Apply(ops, kvs), a)
  {
    ApplyAppend(ops, AccountOp(a, put), kvs);
    r := ops + [AccountOp(a, put)];
    ghost var base := Apply(r, kvs);
    for i := 0 to |a.roles|
      invariant forall op :: op in r ==> !op.Put? || op.lease == 0
      invariant Apply(r, kvs) ==
        if put then WithIndex(base, a.name, a.roles[..i]) else base - IndexKeys(a.name, a.roles[..i])
    {
      var op := IndexOp(a.roles[i], a.name, put);
      ApplyAppend(r, op, kvs);
      r := r + [op];
      assert a.roles[..i + 1] == a.roles[..i] + [a.roles[i]];
      WithIndexAppend(base, a.name, a.roles[..i], a.roles[i]);
    }
    assert a.roles[..|a.roles|] == a.roles;
  }

  // ---------------------------------------------------------------- create, update, delete

  function AfterCreate(kvs: Kvs, a: Account): Kvs {
    if AccountOf(a.name) in kvs then kvs else WithAccount(kvs, a)
  }

  method CreateAccount(db: Backend, a: Account) returns (ok: bool)
    modifies db
    ensures ok == (AccountOf(a.name) !in old(db.kvs)) && db.leases == old(db.leases)
    ensures db.kvs == AfterCreate(old(db.kvs), a)
  {
    if AccountOf(a.name) in db.kvs {
      return false;
    }
    var ops := GenAccountOpts(db.kvs, [], a, true);
    var _ := db.TxnWithCmp(ops, [], []);
    return true;
  }

  /** The index entries of the roles an account had and no longer has. */
  function Lost(before: Account, a: Account): set<Key> {
    set r | r in before.roles && r !in a.roles :: RoleAccount(r, before.name)
  }

  function AfterUpdate(kvs: Kvs, a: Account): Kvs {
    match GetAccount(kvs, a.name)
    case None => kvs
    case Some(before) => WithAccount(kvs, a) - Lost(before, a)
  }

  method UpdateAccount(db: Backend, a: Account) returns (ok: bool)
    modifies db
    ensures ok == HasAccount(old(db.kvs), a.name) && db.leases == old(db.leases)
    ensures db.kvs == AfterUpdate(old(db.kvs), a)
  {
    var ops := GenAccountOpts(db.kvs, [], a, true);
    var before := GetAccount(db.kvs, a.name);
    if before.None? {
      return false;
    }
    ops := LostOpts(db.kvs, ops, before.value, a);
    var _ := db.TxnWithCmp(ops, [], []);
    return true;
  }

  /** Appends the deletion of the index entries the account loses. */
  method LostOpts(ghost kvs: Kvs, ops: seq<Op>, before: Account, a: Account) returns (r: seq<Op>)
    requires forall op :: op in ops ==> !op.Put? || op.lease == 0
    ensures forall op :: op in r ==> !op.Put? || op.lease == 0
    ensures Apply(r, kvs) == Apply(ops, kvs) - Lost(before, a)
  {
    r := ops;
    for i := 0 to |before.roles|
      invariant forall op :: op in r ==> !op.Put? || op.lease == 0
      invariant Apply(r, kvs) == Apply(ops, kvs) - Lost(before.(roles := before.roles[..i]), a)
    {
      var role := before.roles[i];
      assert before.roles[..i + 1] == before.roles[..i] + [role];
      LostAppend(before, before.roles[..i], role, a);
      if role in a.roles {
        continue;
      }
      var op := Delete(RoleAccount(role, before.name));
      ApplyAppend(r, op, kvs);
      r := r + [op];
    }
    assert before.roles[..|before.roles|] == before.roles;
  }

  lemma LostAppend(before: Account, roles: seq<string>, role: string, a: Account)
    ensures Lost(before.(roles := roles + [role]), a) ==
      Lost(before.(roles := roles), a) + if role in a.roles then {} else {RoleAccount(role, before.name)}
  {
    assert forall x :: x in roles + [role] <==> x in roles || x == role;
    forall k | k in Lost(before.(roles := roles), a) ensures k in Lost(before.(roles := roles + [role]), a) {
      assert k.role in roles + [role];
    }
    if role !in a.roles {
      assert role in roles + [role];
      assert RoleAccount(role, before.name) in Lost(before.(roles := roles + [role]), a);
    }
  }

  /** Accounts that cannot be read are skipped. */
  function AfterDelete(read: Kvs, kvs: Kvs, names: seq<string>): Kvs {
    if names == [] then kvs
    else
      var rest := AfterDelete(read, kvs, names[..|names| - 1]);
      match GetAccount(read, names[|names| - 1])
      case None => rest
      case Some(a) => WithoutAccount(rest, a)
  }

  method DeleteAccount(db: Backend, names: seq<string>) returns (ok: bool)
    modifies db
    ensures ok == (names != []) && db.leases == old(db.leases)
    ensures db.kvs == AfterDelete(old(db.kvs), old(db.kvs), names)
  {
    if |names| == 0 {
      return false;
    }
    var ops: seq<Op> := [];
    for i := 0 to |names|
      invariant unchanged(db)
      invariant forall op :: op in ops ==> !op.Put? || op.lease == 0
      invariant Apply(ops, db.kvs) == AfterDelete(db.kvs, db.kvs, names[..i])
    {
      assert names[..i + 1][..i] == names[..i];
      var a := GetAccount(db.kvs, names[i]);
      if a.None? {
        continue;
      }
      ops := GenAccountOpts(db.kvs, ops, a.value, false);
    }
    assert names[..|names|] == names;
    var _ := db.TxnWithCmp(ops, [], []);
    return true;
  }

  // ---------------------------------------------------------------- the index stays exact

  /** Writing a new account keeps the index exact exactly when its role list is the one it is read with. */
  lemma CreateExact(kvs: Kvs, a: Account)
    requires RolesIndexed(kvs) && AccountOf(a.name) !in kvs
    ensures RolesIndexed(AfterCreate(kvs, a)) <==> RolesAsRead(a)
  {
    WrittenExact(kvs, WithAccount(kvs, a), a, {});
  }

  lemma UpdateExact(kvs: Kvs, a: Account)
    requires RolesIndexed(kvs) && HasAccount(kvs, a.name)
    ensures RolesIndexed(AfterUpdate(kvs, a)) <==> RolesAsRead(a)
  {
    WrittenExact(kvs, AfterUpdate(kvs, a), a, Lost(GetAccount(kvs, a.name).value, a));
  }

  /** The state of the index for one account after its roles were written and its lost entries removed. */
  lemma WrittenExact(kvs: Kvs, after: Kvs, a: Account, lost: set<Key>)
    requires RolesIndexed(kvs) && after == WithAccount(kvs, a) - lost
    requires forall k :: k in lost ==> k.RoleAccount? && k.name == a.name && k.role !in a.roles
    requires forall role :: HoldsRole(kvs, a.name, role) && role !in a.roles ==> RoleAccount(role, a.name) in lost
    ensures RolesIndexed(after) <==> RolesAsRead(a)
  {
    forall role ensures RoleAccount(role, a.name) in after <==> role in a.roles {
      if role in a.roles {
        assert RoleAccount(role, a.name) in IndexKeys(a.name, a.roles);
      } else if RoleAccount(role, a.name) in kvs {
        assert HoldsRole(kvs, a.name, role);
      }
    }
    assert GetAccount(after, a.name) == Some(Compatible(a));
    forall role, name | name != a.name
      ensures RoleAccount(role, name) in after <==> HoldsRole(after, name, role)
    {
      assert RoleAccount(role, name) in kvs <==> HoldsRole(kvs, name, role);
      assert GetAccount(after, name) == GetAccount(kvs, name);
    }
    if RolesIndexed(after) && a.role != "" {
      assert RoleAccount(a.role, a.name) in after <==> HoldsRole(after, a.name, a.role);
      forall r | r in a.roles ensures r == a.role {
        assert RoleAccount(r, a.name) in after <==> HoldsRole(after, a.name, r);
      }
    }
  }

  lemma {:induction false} DeleteKeeps(read: Kvs, names: seq<string>)
    requires RolesIndexed(read)
    ensures RolesIndexed(AfterDelete(read, read, names))
    ensures forall name :: AccountOf(name) in AfterDelete(read, read, names) <==> AccountOf(name) in read && name !in names
    ensures forall name :: name !in names ==> GetAccount(AfterDelete(read, read, names), name) == GetAccount(read, name)
  {
    if names != [] {
      var init, last := names[..|names| - 1], names[|names| - 1];
      DeleteKeeps(read, init);
      assert names == init + [last];
      if GetAccount(read, last).Some? {
        DeleteOneKeeps(AfterDelete(read, read, init), read, last);
      }
    }
  }

  /** Deleting an account a second time changes nothing. */
  lemma DeleteOneKeeps(kvs: Kvs, read: Kvs, name: string)
    requires RolesIndexed(kvs) && RolesIndexed(read) && GetAccount(read, name).Some?
    requires GetAccount(kvs, name) in {None, GetAccount(read, name)}
    ensures var after := WithoutAccount(kvs, GetAccount(read, name).value);
      && RolesIndexed(after)
      && (forall n :: AccountOf(n) in after <==> AccountOf(n) in kvs && n != name)
      && (forall n :: n != name ==> GetAccount(after, n) == GetAccount(kvs, n))
  {
    var a := GetAccount(read, name).value;
    var after := WithoutAccount(kvs, a);
    assert AccountOf(name) in read && a.name == name;
    forall role, n ensures RoleAccount(role, n) in after <==> HoldsRole(after, n, role) {
      assert RoleAccount(role, n) in kvs <==> HoldsRole(kvs, n, role);
      if n == name && role in a.roles {
        assert RoleAccount(role, n) in IndexKeys(name, a.roles);
      }
    }
  }

  // ---------------------------------------------------------------- roles

  function AfterCreateRole(kvs: Kvs, role: string): Kvs {
    if RoleOf(role) in kvs then kvs else kvs[RoleOf(role) := Entry(Text(role), 0)]
  }

  method CreateRole(db: Backend, role: string) returns (ok: bool)
    modifies db
    ensures ok == (RoleOf(role) !in old(db.kvs)) && db.leases == old(db.leases)
    ensures db.kvs == AfterCreateRole(old(db.kvs), role)
  {
    if RoleOf(role) in db.kvs {
      return false;
    }
    var op := Put(RoleOf(role), Text(role), 0);
    ApplyAppend([], op, db.kvs);
    assert [] + [op] == [op];
    var _ := db.TxnWithCmp([op], [], []);
    return true;
  }

  predicate RoleBindingExists(kvs: Kvs, role: string) {
    exists k :: k in kvs && k.RoleAccount? && k.role == role
  }

  function AfterDeleteRole(kvs: Kvs, role: string): Kvs {
    if RoleBindingExists(kvs, role) then kvs else kvs - {RoleOf(role)}
  }

  method DeleteRole(db: Backend, role: string) returns (ok: bool)
    modifies db
    ensures ok == !RoleBindingExists(old(db.kvs), role) && db.leases == old(db.leases)
    ensures db.kvs == AfterDeleteRole(old(db.kvs), role)
  {
    if RoleBindingExists(db.kvs, role) {
      return false;
    }
    var op := Delete(RoleOf(role));
    ApplyAppend([], op, db.kvs);
    assert [] + [op] == [op];
    var _ := db.TxnWithCmp([op], [], []);
    return true;
  }

  /** Where the index is exact, a role can be deleted exactly when no account holds it. */
  lemma BindingIsHolding(kvs: Kvs, role: string)
    requires RolesIndexed(kvs)
    ensures RoleBindingExists(kvs, role) <==> exists name :: HoldsRole(kvs, name, role)
  {
    if RoleBindingExists(kvs, role) {
      var k :| k in kvs && k.RoleAccount? && k.role == role;
      assert RoleAccount(role, k.name) in kvs;
      assert HoldsRole(kvs, k.name, role);
    }
    if exists name :: HoldsRole(kvs, name, role) {
      var name :| HoldsRole(kvs, name, role);
      assert RoleAccount(role, name) in kvs;
    }
  }

  // ---------------------------------------------------------------- runs

  datatype Step =
    | Create(account: Account)
    | Update(account: Account)
    | DeleteMany(names: seq<string>)
    | AddRole(role: string)
    | DropRole(role: string)

  function After(kvs: Kvs, s: Step): Kvs {
    match s
    case Create(a) => AfterCreate(kvs, a)
    case Update(a) => AfterUpdate(kvs, a)
    case DeleteMany(names) => AfterDelete(kvs, kvs, names)
    case AddRole(role) => AfterCreateRole(kvs, role)
    case DropRole(role) => AfterDeleteRole(kvs, role)
  }

  function Run(steps: seq<Step>): Kvs {
    if steps == [] then map[] else After(Run(steps[..|steps| - 1]), steps[|steps| - 1])
  }

  /** When a step keeps the index exact: an account that is written has the role list it is read with. */
  predicate WritesAsRead(kvs: Kvs, s: Step) {
    match s
    case Create(a) => AccountOf(a.name) !in kvs ==> RolesAsRead(a)
    case Update(a) => HasAccount(kvs, a.name) ==> RolesAsRead(a)
    case _ => true
  }

  lemma StepExact(kvs: Kvs, s: Step)
    requires RolesIndexed(kvs)
    ensures RolesIndexed(After(kvs, s)) <==> WritesAsRead(kvs, s)
  {
    match s
    case Create(a) =>
      if AccountOf(a.name) !in kvs {
        CreateExact(kvs, a);
      }
    case Update(a) =>
      if HasAccount(kvs, a.name) {
        UpdateExact(kvs, a);
      }
    case DeleteMany(names) => DeleteKeeps(kvs, names);
    case AddRole(r) => RolesDoNotMatter(kvs, AfterCreateRole(kvs, r));
    case DropRole(r) => RolesDoNotMatter(kvs, AfterDeleteRole(kvs, r));
  }

  /** The index is exact after every step of the run. */
  ghost predicate AllIndexed(steps: seq<Step>) {
    RolesIndexed(Run(steps)) && (steps != [] ==> AllIndexed(steps[..|steps| - 1]))
  }

  /** Every step of the run writes accounts as they are read. */
  predicate AllAsRead(steps: seq<Step>) {
    steps != [] ==>
      var init := steps[..|steps| - 1];
      AllAsRead(init) && WritesAsRead(Run(init), steps[|steps| - 1])
  }

  /** In every run the index has an entry for a role and an account exactly when that account exists and holds that
      role, all along the run, exactly when every account that is written has the role list it is read with. */
  lemma {:induction false} IndexExactInEveryRun(steps: seq<Step>)
    ensures AllIndexed(steps) <==> AllAsRead(steps)
  {
    if steps != [] {
      var init, s := steps[..|steps| - 1], steps[|steps| - 1];
      IndexExactInEveryRun(init);
      if AllIndexed(init) {
        StepExact(Run(init), s);
      }
    }
  }

  /** So in such a run a role is deleted exactly when no account holds it. */
  lemma {:induction false} RoleDeletedExact(steps: seq<Step>, role: string)
    requires AllAsRead(steps) && RoleOf(role) in Run(steps)
    ensures RoleOf(role) !in After(Run(steps), DropRole(role)) <==> !exists name :: HoldsRole(Run(steps), name, role)
  {
    IndexExactInEveryRun(steps);
    BindingIsHolding(Run(steps), role);
  }

  lemma RolesDoNotMatter(kvs: Kvs, after: Kvs)
    requires RolesIndexed(kvs)
    requires forall k: Key :: !k.RoleOf? ==> (k in kvs <==> k in after) && (k in kvs ==> kvs[k] == after[k])
    ensures RolesIndexed(after)
  {
    forall r, name ensures RoleAccount(r, name) in after <==> HoldsRole(after, name, r) {
      assert RoleAccount(r, name) in kvs <==> HoldsRole(kvs, name, r);
    }
  }

  // ---------------------------------------------------------------- accounts and roles without an index

  /** Accounts by name and a set of roles. */
  datatype Directory = Directory(accounts: map<string, Account>, roles: set<string>)

  predicate Held(d: Directory, role: string) {
    exists name :: name in d.accounts && role in Compatible(d.accounts[name]).roles
  }

  /** The same calls on it. */
  function PlainStep(d: Directory, s: Step): Directory {
    match s
    case Create(a) => if a.name in d.accounts then d else d.(accounts := d.accounts[a.name := a])
    case Update(a) => if a.name in d.accounts then d.(accounts := d.accounts[a.name := a]) else d
    case DeleteMany(names) => d.(accounts := map n | n in d.accounts && n !in names :: d.accounts[n])
    case AddRole(role) => d.(roles := d.roles + {role})
    case DropRole(role) => if Held(d, role) then d else d.(roles := d.roles - {role})
  }

  function PlainRun(steps: seq<Step>): Directory {
    if steps == [] then Directory(map[], {}) else PlainStep(PlainRun(steps[..|steps| - 1]), steps[|steps| - 1])
  }

  function StoredAccount(kvs: Kvs, name: string): Option<Account> {
    if HasAccount(kvs, name) then Some(kvs[AccountOf(name)].value.account) else None
  }

  function Find(accounts: map<string, Account>, name: string): Option<Account> {
    if name in accounts then Some(accounts[name]) else None
  }

  ghost predicate Represents(kvs: Kvs, d: Directory) {
    && (forall name :: StoredAccount(kvs, name) == Find(d.accounts, name))
    && (forall role :: RoleOf(role) in kvs <==> role in d.roles)
  }

  /** What an account call does to accounts and roles. */
  lemma WithAccountAt(kvs: Kvs, a: Account, lost: set<Key>)
    requires forall k :: k in lost ==> k.RoleAccount?
    ensures var after := WithAccount(kvs, a) - lost;
      && (forall name :: StoredAccount(after, name) == if name == a.name then Some(a) else StoredAccount(kvs, name))
      && (forall role :: RoleOf(role) in after <==> RoleOf(role) in kvs)
  {
  }

  lemma {:induction false} AfterDeleteAt(read: Kvs, names: seq<string>)
    requires RolesIndexed(read)
    ensures var after := AfterDelete(read, read, names);
      && (forall name :: StoredAccount(after, name) == if name in names then None else StoredAccount(read, name))
      && (forall role :: RoleOf(role) in after <==> RoleOf(role) in read)
  {
    if names != [] {
      var init, last := names[..|names| - 1], names[|names| - 1];
      AfterDeleteAt(read, init);
      assert names == init + [last];
      if HasAccount(read, last) {
        assert GetAccount(read, last).value.name == last;
      }
    }
  }

  lemma HeldIsHolding(kvs: Kvs, d: Directory, role: string)
    requires RolesIndexed(kvs) && Represents(kvs, d)
    ensures RoleBindingExists(kvs, role) <==> Held(d, role)
  {
    BindingIsHolding(kvs, role);
    forall name ensures HoldsRole(kvs, name, role) <==> name in d.accounts && role in Compatible(d.accounts[name]).roles {
      assert StoredAccount(kvs, name) == Find(d.accounts, name);
    }
  }

  lemma StepRepresents(kvs: Kvs, d: Directory, s: Step)
    requires RolesIndexed(kvs) && Represents(kvs, d)
    ensures Represents(After(kvs, s), PlainStep(d, s))
  {
    match s
    case Create(a) =>
      assert StoredAccount(kvs, a.name) == Find(d.accounts, a.name);
      WithAccountAt(kvs, a, {});
      assert WithAccount(kvs, a) - {} == WithAccount(kvs, a);
    case Update(a) =>
      assert StoredAccount(kvs, a.name) == Find(d.accounts, a.name);
      if HasAccount(kvs, a.name) {
        WithAccountAt(kvs, a, Lost(GetAccount(kvs, a.name).value, a));
      }
    case DeleteMany(names) => AfterDeleteAt(kvs, names);
    case AddRole(role) =>
    case DropRole(role) => HeldIsHolding(kvs, d, role);
  }

  /** Over every run whose accounts are written as they are read, the store holds exactly the accounts and roles of the
      plain directory: creations do not overwrite, updates do not create, deletions of several names take exactly
      those, and a role goes exactly when it is dropped while no account holds it. */
  lemma {:induction false} DirectoryInEveryRun(steps: seq<Step>)
    requires AllAsRead(steps)
    ensures Represents(Run(steps), PlainRun(steps))
  {
    if steps != [] {
      var init, s := steps[..|steps| - 1], steps[|steps| - 1];
      DirectoryInEveryRun(init);
      IndexExactInEveryRun(init);
      StepRepresents(Run(init), PlainRun(init), s);
    }
  }

  /** An account that an older release stored, with one role and no index entry for it, is read as holding that
      role, yet nothing stops the role's deletion. */
  lemma OldFormatRoleCanBeDeleted(kvs: Kvs, name: string, role: string)
    requires HasAccount(kvs, name) && kvs[AccountOf(name)].value.account.role == role != "" && !RoleBindingExists(kvs, role)
    ensures HoldsRole(kvs, name, role) && HoldsRole(AfterDeleteRole(kvs, role), name, role)
    ensures RoleOf(role) !in AfterDeleteRole(kvs, role) && !RolesIndexed(kvs)
  {
    assert role in [role];
    assert HoldsRole(kvs, name, role);
    assert RoleAccount(role, name) !in kvs;
  }
}
