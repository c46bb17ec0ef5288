/** The lock-free round robin and the retry loop over it. */
module RoundRobin {

  /** Where a caller of Next stands between two of its atomic steps. */
  datatype Pc =
    | Outside
    | Loaded(c: int)           // has read the index
    | Lost                     // its compare-and-swap failed, will read the index again
    | Picked(i: int)           // returns the endpoint at this position

  datatype Balancer = Balancer(n: nat, index: int, threads: map<nat, Pc>)

  function PcOf(s: Balancer, t: nat): Pc {
    if t in s.threads then s.threads[t] else Outside
  }

  /** The next atomic step of thread `t`; a thread that has picked starts over. */
  function Step(s: Balancer, t: nat): Balancer
    requires s.n > 0
  {
    match PcOf(s, t)
    case Outside => s.(threads := s.threads[t := Loaded(s.index)])
    case Loaded(c) =>
      if c >= s.n - 1 then s.(index := 0, threads := s.threads[t := Picked(0)])
      else if s.index == c then s.(index := c + 1, threads := s.threads[t := Picked(c + 1)])
      else s.(threads := s.threads[t := Lost])
    case Lost => s.(threads := s.threads[t := Picked(s.index)])
    case Picked(_) => s.(threads := s.threads[t := Outside])
  }

  function Run(n: nat, schedule: seq<nat>): (s: Balancer)
    requires n > 0
    ensures s.n == n
  {
    if schedule == [] then Balancer(n, -1, map[])
    else Step(Run(n, schedule[..|schedule| - 1]), schedule[|schedule| - 1])
  }

  ghost predicate PcSafe(s: Balancer, pc: Pc) {
    match pc
    case Outside => true
    case Loaded(c) => -1 <= c < s.n && (c >= 0 ==> s.index >= 0)
    case Lost => s.index >= 0
    case Picked(i) => 0 <= i < s.n
  }

  ghost predicate Safe(s: Balancer) {
    && -1 <= s.index < s.n
    && forall t :: t in s.threads ==> PcSafe(s, s.threads[t])
  }

  lemma StepSafe(s: Balancer, t: nat)
    requires s.n > 0 && Safe(s)
    ensures Safe(Step(s, t)) && (s.index >= 0 ==> Step(s, t).index >= 0)
  {
    var after := Step(s, t);
    assert PcSafe(s, PcOf(s, t));
    forall u | u in after.threads ensures PcSafe(after, after.threads[u]) {
      if u != t {
        assert PcSafe(s, s.threads[u]);
      }
    }
  }

  /** In every interleaving the index stays in range, never returns to its start value, and every pick,
      also the one after a lost race, is a position of the list. */
  lemma {:induction false} SafeInEveryRun(n: nat, schedule: seq<nat>, k: nat)
    requires n > 0 && k <= |schedule|
    ensures Safe(Run(n, schedule))
    ensures Run(n, schedule[..k]).index >= 0 ==> Run(n, schedule).index >= 0
  {
    if schedule == [] {
      assert schedule[..k] == schedule;
    } else {
      var init, t := schedule[..|schedule| - 1], schedule[|schedule| - 1];
      if k == |schedule| {
        assert schedule[..k] == schedule;
        SafeInEveryRun(n, init, |init|);
      } else {
        SafeInEveryRun(n, init, k);
        assert init[..k] == schedule[..k];
      }
      StepSafe(Run(n, init), t);
    }
  }

  // ---------------------------------------------------------------- on its own

  /** The position after `i` in a circle of `n`. */
  function Following(i: int, n: nat): int {
    if i + 1 < n then i + 1 else 0
  }

  /** A pick is the index at that moment. Without a lost race it is the position behind the one the caller has read; the
      caller that loses the race takes the position of the winner. */
  lemma PickExact(s: Balancer, t: nat)
    requires s.n > 0 && Safe(s) && !PcOf(s, t).Picked? && PcOf(Step(s, t), t).Picked?
    ensures var after := Step(s, t);
      && PcOf(after, t) == Picked(after.index)
      && (PcOf(s, t).Loaded? ==> after.index == Following(PcOf(s, t).c, s.n))
      && (PcOf(s, t) == Lost ==> after.index == s.index)
  {
    assert PcSafe(s, PcOf(s, t));
  }

  /** A caller that meets no other one picks the position behind the current one in two steps; a lost race costs it
      one more step, which moves nothing. */
  lemma UncontendedPick(s: Balancer, t: nat)
    requires s.n > 0 && Safe(s)
    ensures PcOf(s, t) == Outside ==>
      var after := Step(Step(s, t), t);
      after.index == Following(s.index, s.n) && PcOf(after, t) == Picked(after.index)
    ensures PcOf(s, t).Loaded? && PcOf(s, t).c < s.n - 1 && PcOf(s, t).c != s.index ==>
      var after := Step(Step(s, t), t);
      after.index == s.index && PcOf(after, t) == Picked(s.index)
  {
  }

  class RoundRobinLB {
    const endpoints: seq<string>
    var index: int

    constructor (endpoints: seq<string>)
      ensures this.endpoints == endpoints && index == -1
    {
      this.endpoints, index := endpoints, -1;
    }

    predicate Valid()
      reads this
    {
      -1 <= index && (endpoints != [] ==> index < |endpoints|)
    }

    /** The position after the current one, in a circle. */
    method Next() returns (addr: string)
      requires Valid()
      modifies this
      ensures Valid()
      ensures endpoints == [] ==> addr == "" && index == old(index)
      ensures endpoints != [] ==> index == Following(old(index), |endpoints|) && addr == endpoints[index]
    {
      var l := |endpoints|;
      if l == 0 {
        return "";
      }
      var c := index;
      if c >= l - 1 {
        index := 0;
        return endpoints[0];
      }
      index := c + 1;
      return endpoints[c + 1];
    }
  }

  function Rotated(xs: seq<string>, k: nat): seq<string>
    requires k <= |xs|
  {
    xs[k..] + xs[..k]
  }

  lemma RotatedIsPermutation(xs: seq<string>, k: nat)
    requires k <= |xs|
    ensures multiset(Rotated(xs, k)) == multiset(xs)
  {
    assert xs == xs[..k] + xs[k..];
  }

  /** Where attempt `i` lands when the first lands on `start`. */
  function Position(start: nat, i: nat, n: nat): int {
    if start + i < n then start + i else start + i - n
  }

  datatype Outcome = Answered(addr: string) | Failed(errs: seq<string>)

  /** One request with as many attempts as endpoints; `fails(i, addr)` tells whether attempt `i` at `addr`
      fails. A request that fails has tried every endpoint exactly once, starting behind the last one used;
      one that is answered stopped at the first success in that order. */
  method RestDo(lb: RoundRobinLB, fails: (nat, string) -> bool) returns (r: Outcome, tried: seq<string>)
    requires lb.Valid()
    modifies lb
    ensures lb.Valid()
    ensures var n := |lb.endpoints|;
      n > 0 ==>
        var order := Rotated(lb.endpoints, Following(old(lb.index), n));
        && tried <= order
        && (forall i :: 0 <= i < |tried| - 1 ==> fails(i, order[i]))
        && (r.Failed? ==> tried == order && r.errs == order && multiset(tried) == multiset(lb.endpoints) &&
                          fails(n - 1, order[n - 1]))
        && (r.Answered? ==> |tried| > 0 && r.addr == order[|tried| - 1] && !fails(|tried| - 1, r.addr))
    ensures lb.endpoints == [] ==> tried == [] && r == Answered("")
  {
    var retries := |lb.endpoints|;
    r, tried := Answered(""), [];
    if retries == 0 {
      return;
    }
    var errs := [];
    ghost var start := Following(lb.index, retries);
    ghost var order := Rotated(lb.endpoints, start);
    var i := 0;
    var failed := true;
    while i < retries
      invariant 0 <= i <= retries && lb.Valid() && failed
      invariant tried == order[..i] && errs == tried
      invariant Following(lb.index, retries) == Position(start, i, retries)
      invariant forall j :: 0 <= j < i ==> fails(j, order[j])
    {
      var addr := lb.Next();
      assert addr == order[i];
      assert order[..i + 1] == order[..i] + [addr];
      tried := tried + [addr];
      if fails(i, addr) {
        errs := errs + [addr];
        i := i + 1;
        continue;
      }
      return Answered(addr), tried;
    }
    RotatedIsPermutation(lb.endpoints, start);
    return Failed(errs), tried;
  }
}
