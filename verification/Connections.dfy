/** The connection counter of the server and its wait group, changed by any number of threads: accepts, closes
    with a compare-and-swap loop, the forced drain, and the wait of Serve. */
module Connections {

  /** Where a thread stands between two of its atomic steps. */
  datatype Pc =
    | Outside
    | Added(conn: nat)         // AcceptOne: the wait group counts the connection, the counter does not yet
    | Looping                  // CloseOne: at the head of the loop
    | Loaded(left: int)        // CloseOne: has read the counter
    | Swapped                  // CloseOne: has taken one off the counter, the wait group not yet

  datatype Server = Server(
    conns: int,
    wg: int,
    threads: map<nat, Pc>,
    accepted: nat,             // accepts that have counted their connection
    released: nat,             // calls of CloseOne that have taken one off
    handed: set<nat>,          // connections handed out to the server
    closed: set<nat>)          // connections that have been closed, once or more often

  /** Accepting a new connection, closing one that was handed out, one call of CloseOne by the drain, which closes
      no connection, or the next step of a thread. */
  datatype Action = Accept(t: nat, conn: nat) | Close(t: nat, conn: nat) | Drain(t: nat) | Proceed(t: nat)

  function PcOf(s: Server, t: nat): Pc {
    if t in s.threads then s.threads[t] else Outside
  }

  function At(s: Server, t: nat, pc: Pc): Server {
    s.(threads := s.threads[t := pc])
  }

  predicate IsNew(s: Server, conn: nat) {
    conn !in s.handed && forall t :: t in s.threads ==> s.threads[t] != Added(conn)
  }

  /** One atomic step; an action that is not enabled changes nothing. */
  function Next(s: Server, a: Action): Server {
    match a
    case Accept(t, conn) => if PcOf(s, t) == Outside && IsNew(s, conn) then At(s, t, Added(conn)).(wg := s.wg + 1) else s
    case Close(t, conn) =>
      if PcOf(s, t) == Outside && conn in s.handed then At(s, t, Looping).(closed := s.closed + {conn}) else s
    case Drain(t) => if PcOf(s, t) == Outside then At(s, t, Looping) else s
    case Proceed(t) => Step(s, t)
  }

  function Step(s: Server, t: nat): Server {
    match PcOf(s, t)
    case Outside => s
    case Added(conn) =>
      At(s, t, Outside).(conns := s.conns + 1, accepted := s.accepted + 1, handed := s.handed + {conn})
    case Looping => At(s, t, Loaded(s.conns))
    case Loaded(left) =>
      if left <= 0 then At(s, t, Outside)
      else if s.conns == left then At(s, t, Swapped).(conns := left - 1, released := s.released + 1)
      else At(s, t, Looping)
    case Swapped => At(s, t, Outside).(wg := s.wg - 1)
  }

  /** The wait ends only when the wait group has come to zero. */
  predicate WaitEnds(s: Server) {
    s.wg == 0
  }

  const START: Server := Server(0, 0, map[], 0, 0, {}, {})

  function Continue(s: Server, actions: seq<Action>): Server {
    if actions == [] then s else Next(Continue(s, actions[..|actions| - 1]), actions[|actions| - 1])
  }

  function Run(actions: seq<Action>): Server {
    Continue(START, actions)
  }

  // ---------------------------------------------------------------- the two counters

  function Where(threads: map<nat, Pc>, p: Pc -> bool): set<nat> {
    set t | t in threads && p(threads[t])
  }

  lemma WhereUpdate(s: Server, t: nat, pc: Pc, p: Pc -> bool)
    requires !p(Outside)
    ensures |Where(s.threads[t := pc], p)| ==
      |Where(s.threads, p)| + (if p(pc) then 1 else 0) - (if p(PcOf(s, t)) then 1 else 0)
  {
    var before, after := Where(s.threads, p), Where(s.threads[t := pc], p);
    assert t in before <==> p(PcOf(s, t));
    WhereSet(s.threads, t, pc, p);
    if t in before {
      assert |before - {t}| == |before| - 1 && before + {t} == before;
    } else {
      assert |before + {t}| == |before| + 1 && before - {t} == before;
    }
  }

  lemma WhereSet(threads: map<nat, Pc>, t: nat, pc: Pc, p: Pc -> bool)
    ensures Where(threads[t := pc], p) == if p(pc) then Where(threads, p) + {t} else Where(threads, p) - {t}
  {
  }

  /** The threads for which the two counters are out of step. */
  predicate Counts(pc: Pc) {
    pc.Added? || pc == Swapped
  }

  ghost predicate Counted(s: Server) {
    && s.wg == s.conns + |Where(s.threads, Counts)|
    && s.conns == s.accepted - s.released
    && s.conns >= 0
  }

  lemma StepKeepsCount(s: Server, a: Action)
    requires Counted(s)
    ensures Counted(Next(s, a))
  {
    WhereUpdate(s, a.t, PcOf(Next(s, a), a.t), Counts);
  }

  /** In every interleaving the wait group equals the counter plus the threads in mid-step. So neither counter is ever
      negative, no release takes the wait group below zero, and when the wait ends the counter is zero and no
      thread is between the two. */
  lemma {:induction false} CountedInEveryRun(actions: seq<Action>)
    ensures var s := Run(actions);
      && Counted(s)
      && s.wg >= 0
      && s.released <= s.accepted
      && (forall t :: PcOf(s, t) == Swapped ==> s.wg >= 1)
      && (WaitEnds(s) ==> s.conns == 0 && Where(s.threads, Counts) == {} && s.released == s.accepted)
  {
    CountedRun(actions);
    CountedMeans(Run(actions));
  }

  lemma {:induction false} CountedRun(actions: seq<Action>)
    ensures Counted(Run(actions))
  {
    if actions != [] {
      CountedRun(actions[..|actions| - 1]);
      StepKeepsCount(Run(actions[..|actions| - 1]), actions[|actions| - 1]);
    }
  }

  lemma CountedMeans(s: Server)
    requires Counted(s)
    ensures s.wg >= 0 && s.released <= s.accepted
    ensures forall t :: PcOf(s, t) == Swapped ==> s.wg >= 1
    ensures WaitEnds(s) ==> s.conns == 0 && Where(s.threads, Counts) == {} && s.released == s.accepted
  {
    forall t: nat | PcOf(s, t) == Swapped ensures s.wg >= 1 {
      assert t in Where(s.threads, Counts);
    }
  }

  /** A lost compare-and-swap means that another thread has changed the counter since it was read. */
  lemma {:induction false} LostSwapMeansProgress(s: Server, actions: seq<Action>, t: nat)
    requires PcOf(s, t).Loaded? && PcOf(s, t).left == s.conns
    requires forall a :: a in actions ==> a.t != t
    ensures var now := Continue(s, actions);
      && PcOf(now, t) == PcOf(s, t)
      && (now.conns != PcOf(s, t).left ==> now.accepted + now.released > s.accepted + s.released)
  {
    ContinueCounts(s, actions, t);
  }

  lemma {:induction false} ContinueCounts(s: Server, actions: seq<Action>, t: nat)
    requires forall a :: a in actions ==> a.t != t
    ensures var now := Continue(s, actions);
      && PcOf(now, t) == PcOf(s, t)
      && now.accepted >= s.accepted && now.released >= s.released
      && now.conns - s.conns == (now.accepted - s.accepted) - (now.released - s.released)
  {
    if actions != [] {
      ContinueCounts(s, actions[..|actions| - 1], t);
      assert actions[|actions| - 1] in actions;
    }
  }

  // ---------------------------------------------------------------- the connections

  /** The connections accepted and not closed, handed out or not. */
  function Open(s: Server): set<nat> {
    (s.handed - s.closed) + set t | t in s.threads && s.threads[t].Added? :: s.threads[t].conn
  }

  ghost predicate Accounted(s: Server) {
    && |s.handed| == s.accepted && s.closed <= s.handed
    && (forall t :: t in s.threads && s.threads[t].Added? ==> s.threads[t].conn !in s.handed)
    && (forall t, u :: t in s.threads && u in s.threads && s.threads[t].Added? && s.threads[t] == s.threads[u] ==> t == u)
  }

  lemma StepKeepsAccounts(s: Server, a: Action)
    requires Accounted(s)
    ensures Accounted(Next(s, a))
  {
    if a.Proceed? && PcOf(s, a.t).Added? {
      HandOut(s, a.t);
    }
  }

  lemma HandOut(s: Server, t: nat)
    requires Accounted(s) && PcOf(s, t).Added?
    ensures Accounted(Step(s, t))
  {
    var conn := PcOf(s, t).conn;
    assert |s.handed + {conn}| == |s.handed| + 1;
  }

  lemma {:induction false} AccountedInEveryRun(actions: seq<Action>)
    ensures Accounted(Run(actions))
  {
    if actions != [] {
      AccountedInEveryRun(actions[..|actions| - 1]);
      StepKeepsAccounts(Run(actions[..|actions| - 1]), actions[|actions| - 1]);
    }
  }

  lemma OpenCount(s: Server)
    requires Accounted(s) && Where(s.threads, Counts) == {}
    ensures |Open(s)| == s.accepted - |s.closed|
  {
    forall t | t in s.threads ensures !s.threads[t].Added? {
      assert t in Where(s.threads, Counts) <==> Counts(s.threads[t]);
    }
    assert Open(s) == s.handed - s.closed;
    assert s.handed == (s.handed - s.closed) + s.closed;
  }

  /** When the wait ends, every connection is closed exactly when as many calls have taken one off the counter as
      connections have been closed: the drain and repeated closes take off the count of others. */
  lemma {:induction false} WaitEndsExact(actions: seq<Action>)
    ensures var s := Run(actions); WaitEnds(s) ==> (Open(s) == {} <==> s.released == |s.closed|)
  {
    var s := Run(actions);
    CountedInEveryRun(actions);
    AccountedInEveryRun(actions);
    if WaitEnds(s) {
      OpenCount(s);
    }
  }

  /** No drain, and no connection is closed a second time. */
  predicate Clean(s: Server, a: Action) {
    !a.Drain? && (a.Close? ==> a.conn !in s.closed)
  }

  predicate Closing(pc: Pc) {
    pc == Looping || pc.Loaded?
  }

  /** Every closed connection has been taken off the counter or is about to be. */
  ghost predicate Covered(s: Server) {
    s.released + |Where(s.threads, Closing)| == |s.closed|
  }

  /** A thread about to take its connection off has not read a counter of zero. */
  ghost predicate Positive(s: Server) {
    forall t :: t in s.threads && s.threads[t].Loaded? ==> s.threads[t].left > 0
  }

  lemma StepKeepsCovered(s: Server, a: Action)
    requires Covered(s) && Positive(s) && Clean(s, a)
    ensures Covered(Next(s, a))
  {
    match a
    case Accept(t, conn) => WhereUpdate(s, t, Added(conn), Closing);
    case Close(t, conn) =>
      WhereUpdate(s, t, Looping, Closing);
      assert |s.closed + {conn}| == |s.closed| + 1;
    case Proceed(t) => ProceedKeepsCovered(s, t);
  }

  lemma ProceedKeepsCovered(s: Server, t: nat)
    requires Covered(s) && Positive(s)
    ensures Covered(Step(s, t))
  {
    var pc := PcOf(s, t);
    WhereUpdate(s, t, Outside, Closing);
    if pc == Looping {
      WhereUpdate(s, t, Loaded(s.conns), Closing);
    } else if pc.Loaded? {
      WhereUpdate(s, t, Swapped, Closing);
      WhereUpdate(s, t, Looping, Closing);
    }
  }

  /** The connection that a thread is closing still counts. */
  lemma StepKeepsPositive(s: Server, a: Action)
    requires Covered(s) && Positive(s) && Counted(s) && Accounted(s)
    ensures Positive(Next(s, a))
  {
    if a.Proceed? && PcOf(s, a.t) == Looping {
      assert a.t in Where(s.threads, Closing);
      assert |s.closed| <= |s.handed| by {
        assert s.handed == s.closed + (s.handed - s.closed);
      }
    }
  }

  lemma {:induction false} CoveredInCleanRuns(actions: seq<Action>)
    requires forall i :: 0 <= i < |actions| ==> Clean(Run(actions[..i]), actions[i])
    ensures Covered(Run(actions)) && Positive(Run(actions))
  {
    if actions != [] {
      var init, a := actions[..|actions| - 1], actions[|actions| - 1];
      forall i | 0 <= i < |init| ensures Clean(Run(init[..i]), init[i]) {
        assert init[..i] == actions[..i];
      }
      CoveredInCleanRuns(init);
      CountedRun(init);
      AccountedInEveryRun(init);
      assert Clean(Run(init), a);
      StepKeepsCovered(Run(init), a);
      StepKeepsPositive(Run(init), a);
    } else {
      assert Where(START.threads, Closing) == {};
    }
  }

  /** Without a drain, and with every connection closed at most once, the wait ends exactly when every connection is
      closed and every close is through, in every interleaving: no close gives up or takes off too much. */
  lemma {:induction false} CleanRunsWait(actions: seq<Action>)
    requires forall i :: 0 <= i < |actions| ==> Clean(Run(actions[..i]), actions[i])
    ensures var s := Run(actions);
      WaitEnds(s) <==> Open(s) == {} && forall t :: t in s.threads ==> s.threads[t] == Outside
  {
    CoveredInCleanRuns(actions);
    CountedRun(actions);
    AccountedInEveryRun(actions);
    CoveredMeans(Run(actions));
  }

  lemma CoveredMeans(s: Server)
    requires Covered(s) && Counted(s) && Accounted(s)
    ensures WaitEnds(s) <==> Open(s) == {} && forall t :: t in s.threads ==> s.threads[t] == Outside
  {
    CountedMeans(s);
    if WaitEnds(s) {
      OpenCount(s);
      assert |Open(s)| + |Where(s.threads, Closing)| == 0;
      forall t | t in s.threads ensures s.threads[t] == Outside {
        assert t !in Where(s.threads, Counts) && t !in Where(s.threads, Closing);
      }
    }
    if forall t :: t in s.threads ==> s.threads[t] == Outside {
      assert Where(s.threads, Counts) == {} && Where(s.threads, Closing) == {};
      OpenCount(s);
    }
  }

  // ---------------------------------------------------------------- waits that end early

  lemma {:induction false} RunAppend(actions: seq<Action>, a: Action)
    ensures Run(actions + [a]) == Next(Run(actions), a)
  {
    assert (actions + [a])[..|actions|] == actions;
  }

  /** A thread with nothing to do accepts a connection, and has nothing to do again. */
  lemma {:induction false} AcceptRun(actions: seq<Action>, t: nat, conn: nat) returns (longer: seq<Action>)
    requires PcOf(Run(actions), t) == Outside && IsNew(Run(actions), conn)
    ensures var s, now := Run(actions), Run(longer);
      && now.threads == s.threads[t := Outside] && now.wg == s.wg + 1 && now.conns == s.conns + 1
      && now.handed == s.handed + {conn} && now.closed == s.closed
    ensures (forall a :: a in actions ==> !a.Drain?) ==> forall a :: a in longer ==> !a.Drain?
  {
    RunAppend(actions, Accept(t, conn));
    RunAppend(actions + [Accept(t, conn)], Proceed(t));
    longer := actions + [Accept(t, conn)] + [Proceed(t)];
  }

  /** A thread in the loop of CloseOne, with the counter above zero, takes one off both counters. */
  lemma {:induction false} ReleaseRun(actions: seq<Action>, t: nat) returns (longer: seq<Action>)
    requires PcOf(Run(actions), t) == Looping && Run(actions).conns > 0
    ensures var s, now := Run(actions), Run(longer);
      && now.threads == s.threads[t := Outside] && now.wg == s.wg - 1 && now.conns == s.conns - 1
      && now.handed == s.handed && now.closed == s.closed
    ensures (forall a :: a in actions ==> !a.Drain?) ==> forall a :: a in longer ==> !a.Drain?
  {
    RunAppend(actions, Proceed(t));
    RunAppend(actions + [Proceed(t)], Proceed(t));
    RunAppend(actions + [Proceed(t)] + [Proceed(t)], Proceed(t));
    longer := actions + [Proceed(t)] + [Proceed(t)] + [Proceed(t)];
  }

  lemma {:induction false} CloseRun(actions: seq<Action>, t: nat, conn: nat) returns (longer: seq<Action>)
    requires PcOf(Run(actions), t) == Outside && conn in Run(actions).handed && Run(actions).conns > 0
    ensures var s, now := Run(actions), Run(longer);
      && now.threads == s.threads[t := Outside] && now.wg == s.wg - 1 && now.conns == s.conns - 1
      && now.handed == s.handed && now.closed == s.closed + {conn}
    ensures (forall a :: a in actions ==> !a.Drain?) ==> forall a :: a in longer ==> !a.Drain?
  {
    RunAppend(actions, Close(t, conn));
    longer := ReleaseRun(actions + [Close(t, conn)], t);
  }

  /** One accept and the drain: the wait ends with the connection open. */
  lemma {:induction false} DrainEndsWait(t: nat, conn: nat)
    ensures exists actions: seq<Action> :: WaitEnds(Run(actions)) && Open(Run(actions)) == {conn}
  {
    var actions := AcceptRun([], t, conn);
    RunAppend(actions, Drain(t));
    actions := ReleaseRun(actions + [Drain(t)], t);
    assert Open(Run(actions)) == {conn};
  }

  /** Two accepts and one connection closed twice: the wait ends with the other one open. */
  lemma {:induction false} RepeatedCloseEndsWait(t: nat, conn: nat, other: nat)
    requires conn != other
    ensures exists actions: seq<Action> :: WaitEnds(Run(actions)) && Open(Run(actions)) == {other} &&
              forall a :: a in actions ==> !a.Drain?
  {
    var actions := RepeatedClose(t, conn, other);
  }

  lemma {:induction false} RepeatedClose(t: nat, conn: nat, other: nat) returns (actions: seq<Action>)
    requires conn != other
    ensures WaitEnds(Run(actions)) && Open(Run(actions)) == {other} && forall a :: a in actions ==> !a.Drain?
  {
    actions := AcceptRun([], t, conn);
    actions := AcceptRun(actions, t, other);
    actions := CloseRun(actions, t, conn);
    actions := CloseRun(actions, t, conn);
    assert Open(Run(actions)) == {other};
  }

  // ---------------------------------------------------------------- on its own

  /** The two counters when no other thread runs. */
  class Counter {
    var conns: int
    var wg: int

    predicate Valid()
      reads this
    {
      wg == conns >= 0
    }

    method AcceptOne()
      requires Valid()
      modifies this
      ensures Valid() && conns == old(conns) + 1
    {
      wg := wg + 1;
      conns := conns + 1;
    }

    method CloseOne() returns (closed: bool)
      requires Valid()
      modifies this
      ensures Valid() && closed == (old(conns) > 0)
      ensures conns == if closed then old(conns) - 1 else old(conns)
    {
      var left := conns;
      if left <= 0 {
        return false;
      }
      conns := left - 1;
      wg := wg - 1;
      return true;
    }

    /** The drain: `closed(i)` says whether the server is found closed before attempt `i`. It takes one after the other
        off both counters until they are zero or the server is closed; it closes no connection itself. */
    method GracefulStop(closed: nat -> bool) returns (n: nat)
      requires Valid()
      modifies this
      ensures Valid() && n + conns == old(conns)
      ensures forall i :: 0 <= i < n ==> !closed(i)
      ensures conns == 0 || closed(n)
    {
      n := 0;
      while true
        invariant Valid() && n + conns == old(conns)
        invariant forall i :: 0 <= i < n ==> !closed(i)
        decreases conns
      {
        if closed(n) {
          break;
        }
        var more := CloseOne();
        if more {
          n := n + 1;
          continue;
        }
        break;
      }
    }
  }
}
