/** The handler chain and its callbacks: handlers run in order, each may register a callback while passing on,
    and the composed callback runs once when the chain ends. */
module Chain {
  import opened Options

  datatype Registration = Registration(id: nat, async: bool)

  /** A handler passes on once, perhaps with a callback, or ends the invocation with a result. */
  datatype Handler = PassesOn(callback: Option<Registration>) | Ends(ok: bool)

  /** The composition that successive registrations build up. */
  datatype Callback = One(id: nat) | Composed(prev: Callback, next: nat, async: bool)

  datatype Event =
    | Handled(i: int)                        // handler `i` runs
    | Ran(id: nat, ok: bool)                 // a callback runs in the invoking goroutine
    | Pooled(callback: Callback, ok: bool)   // a callback is handed to the pool

  /** What invoking a composed callback does: a synchronous part runs before what it was composed with, an
      asynchronous one is handed to the pool after it. */
  function Trace(cb: Callback, ok: bool): seq<Event> {
    match cb
    case One(id) => [Ran(id, ok)]
    case Composed(prev, next, async) =>
      if async then Trace(prev, ok) + [Pooled(One(next), ok)] else [Ran(next, ok)] + Trace(prev, ok)
  }

  /** The callback field of an invocation; without any function nothing can run. */
  datatype Slot = Slot(func: Option<Callback>, async: bool)

  function Finish(slot: Slot, ok: bool): seq<Event> {
    match slot.func
    case None => []
    case Some(cb) => if slot.async then [Pooled(cb, ok)] else Trace(cb, ok)
  }

  function WithCallback(slot: Slot, callback: Option<Registration>): Slot {
    match callback
    case None => slot
    case Some(r) =>
      if slot.func.None? then Slot(Some(One(r.id)), r.async)
      else slot.(func := Some(Composed(slot.func.value, r.id, r.async)))
  }

  /** All that happens once the chain stands at handler `index`. */
  function Continue(handlers: seq<Handler>, index: int, slot: Slot): seq<Event>
    requires -1 <= index
    decreases |handlers| - index
  {
    if index >= |handlers| - 1 then Finish(slot, true)
    else
      [Handled(index + 1)] +
      if handlers[index + 1].Ends? then Finish(slot, handlers[index + 1].ok)
      else Continue(handlers, index + 1, WithCallback(slot, handlers[index + 1].callback))
  }

  lemma Regroup(a: seq<Event>, b: seq<Event>, c: seq<Event>)
    ensures (a + b) + c == a + (b + c)
  {
  }

  class Invocation {
    const handlers: seq<Handler>
    var currentIndex: int
    var slot: Slot
    var log: seq<Event>

    constructor (handlers: seq<Handler>)
      ensures this.handlers == handlers && currentIndex == -1 && slot == Slot(None, false) && log == []
    {
      this.handlers, currentIndex, slot, log := handlers, -1, Slot(None, false), [];
    }

    method SetCallback(callback: Option<Registration>)
      modifies this`slot
      ensures slot == WithCallback(old(slot), callback)
    {
      if callback.None? {
        return;
      }
      var r := callback.value;
      if slot.func.None? {
        slot := Slot(Some(One(r.id)), r.async);
        return;
      }
      var cb := slot.func.value;
      slot := slot.(func := Some(Composed(cb, r.id, r.async)));
    }

    method Next(callback: Option<Registration>)
      requires -1 <= currentIndex
      modifies this
      ensures log == old(log) + Continue(handlers, old(currentIndex), WithCallback(old(slot), callback))
      decreases |handlers| - currentIndex, 1
    {
      SetCallback(callback);
      SyncNext();
    }

    method SyncNext()
      requires -1 <= currentIndex
      modifies this
      ensures log == old(log) + Continue(handlers, old(currentIndex), old(slot))
      decreases |handlers| - currentIndex, 0
    {
      if currentIndex >= |handlers| - 1 {
        Complete(true);
        return;
      }
      ghost var before, h := log, handlers[currentIndex + 1];
      ghost var tail := if h.Ends? then Finish(slot, h.ok)
                        else Continue(handlers, currentIndex + 1, WithCallback(slot, h.callback));
      assert Continue(handlers, currentIndex, slot) == [Handled(currentIndex + 1)] + tail;
      currentIndex := currentIndex + 1;
      log := log + [Handled(currentIndex)];
      Regroup(before, [Handled(currentIndex)], tail);
      match handlers[currentIndex]
      case Ends(ok) => Complete(ok);
      case PassesOn(callback) => Next(callback);
    }

    method Complete(ok: bool)
      modifies this`log
      ensures log == old(log) + Finish(slot, ok)
    {
      if slot.func.None? {
        return;
      }
      if slot.async {
        log := log + [Pooled(slot.func.value, ok)];
        return;
      }
      RunCallback(slot.func.value, ok);
    }

    method RunCallback(cb: Callback, ok: bool)
      modifies this`log
      ensures log == old(log) + Trace(cb, ok)
      decreases cb
    {
      match cb
      case One(id) => log := log + [Ran(id, ok)];
      case Composed(prev, next, async) =>
        if async {
          RunCallback(prev, ok);
        }
        log := log + [if async then Pooled(One(next), ok) else Ran(next, ok)];
        if !async {
          RunCallback(prev, ok);
        }
    }

    method Invoke(last: Option<nat>)
      requires currentIndex == -1
      modifies this
      ensures log == old(log) + Continue(handlers, -1, old(slot).(func := if last.None? then None else Some(One(last.value))))
    {
      slot := slot.(func := if last.None? then None else Some(One(last.value)));
      SyncNext();
    }
  }

  // ---------------------------------------------------------------- the order of everything

  /** The handlers that run: all, or all up to the first that ends the invocation. */
  function Running(handlers: seq<Handler>): nat {
    if handlers == [] then 0
    else if handlers[0].Ends? then 1
    else 1 + Running(handlers[1..])
  }

  function Result(handlers: seq<Handler>): bool {
    if handlers == [] then true
    else if handlers[0].Ends? then handlers[0].ok
    else Result(handlers[1..])
  }

  /** The last handler that runs is the first that ends the invocation, and its result is the one of the invocation;
      without such a handler all run, with success. */
  lemma {:induction false} RunningExact(handlers: seq<Handler>)
    ensures var n := Running(handlers);
      && n <= |handlers|
      && (forall i :: 0 <= i < n - 1 ==> handlers[i].PassesOn?)
      && (if exists h :: h in handlers && h.Ends?
          then n > 0 && handlers[n - 1].Ends? && Result(handlers) == handlers[n - 1].ok
          else n == |handlers| && Result(handlers))
  {
    if handlers != [] && handlers[0].PassesOn? {
      RunningExact(handlers[1..]);
      assert forall h :: h in handlers <==> h == handlers[0] || h in handlers[1..];
    }
  }

  /** The registrations of the handlers that run, in order. */
  function Registered(handlers: seq<Handler>): seq<Registration> {
    if handlers == [] || handlers[0].Ends? then []
    else (match handlers[0].callback case None => [] case Some(r) => [r]) + Registered(handlers[1..])
  }

  /** The synchronous registrations as they run: the latest first. */
  function SyncLatestFirst(rs: seq<Registration>, ok: bool): seq<Event> {
    if rs == [] then []
    else
      var init, last := rs[..|rs| - 1], rs[|rs| - 1];
      if last.async then SyncLatestFirst(init, ok) else [Ran(last.id, ok)] + SyncLatestFirst(init, ok)
  }

  /** The asynchronous registrations as they are handed to the pool: in order of registration. */
  function AsyncInOrder(rs: seq<Registration>, ok: bool): seq<Event> {
    if rs == [] then []
    else
      var init, last := rs[..|rs| - 1], rs[|rs| - 1];
      if last.async then AsyncInOrder(init, ok) + [Pooled(One(last.id), ok)] else AsyncInOrder(init, ok)
  }

  function Compose(base: Callback, rs: seq<Registration>): Callback {
    if rs == [] then base
    else Composed(Compose(base, rs[..|rs| - 1]), rs[|rs| - 1].id, rs[|rs| - 1].async)
  }

  /** Synchronous callbacks run in reverse order of registration and end with the one of Invoke; only then are
      the asynchronous ones handed over, in order of registration. */
  lemma {:induction false} ComposedOrder(base: nat, rs: seq<Registration>, ok: bool)
    ensures Trace(Compose(One(base), rs), ok) == SyncLatestFirst(rs, ok) + [Ran(base, ok)] + AsyncInOrder(rs, ok)
  {
    if rs != [] {
      ComposedOrder(base, rs[..|rs| - 1], ok);
    }
  }

  lemma {:induction false} ComposeFront(base: Callback, r: Registration, rs: seq<Registration>)
    ensures Compose(base, [r] + rs) == Compose(Composed(base, r.id, r.async), rs)
  {
    if rs == [] {
      assert [r] + rs == [r] && [r][..0] == [];
    } else {
      ComposeFront(base, r, rs[..|rs| - 1]);
      assert ([r] + rs)[..|rs|] == [r] + rs[..|rs| - 1];
    }
  }

  function HandledInOrder(from: int, n: nat): seq<Event> {
    seq(n, k => Handled(from + k))
  }

  /** The remaining run with callback `base`, in closed form. */
  function Expected(rest: seq<Handler>, index: int, base: Callback): seq<Event> {
    HandledInOrder(index + 1, Running(rest)) + Trace(Compose(base, Registered(rest)), Result(rest))
  }

  lemma {:induction false} ExpectedFront(rest: seq<Handler>, index: int, base: Callback)
    requires rest != []
    ensures Expected(rest, index, base) ==
      [Handled(index + 1)] +
      if rest[0].Ends? then Trace(base, rest[0].ok)
      else Expected(rest[1..], index + 1, WithCallback(Slot(Some(base), false), rest[0].callback).func.value)
  {
    var h := rest[0];
    HandledFront(index + 1, Running(rest));
    var tail := HandledInOrder(index + 2, Running(rest) - 1);
    Regroup([Handled(index + 1)], tail, Trace(Compose(base, Registered(rest)), Result(rest)));
    if h.Ends? {
      assert tail == [];
    } else {
      ComposeRegistered(rest, base);
    }
  }

  lemma {:induction false} ComposeRegistered(rest: seq<Handler>, base: Callback)
    requires rest != [] && rest[0].PassesOn?
    ensures Compose(base, Registered(rest)) ==
      Compose(WithCallback(Slot(Some(base), false), rest[0].callback).func.value, Registered(rest[1..]))
  {
    if rest[0].callback.Some? {
      ComposeFront(base, rest[0].callback.value, Registered(rest[1..]));
    } else {
      assert [] + Registered(rest[1..]) == Registered(rest[1..]);
    }
  }

  lemma {:induction false} ContinueRuns(handlers: seq<Handler>, index: int, base: Callback)
    requires -1 <= index < |handlers|
    ensures Continue(handlers, index, Slot(Some(base), false)) == Expected(handlers[index + 1..], index, base)
    decreases |handlers| - index
  {
    var rest := handlers[index + 1..];
    if rest == [] {
      assert HandledInOrder(index + 1, 0) == [];
    } else {
      ExpectedFront(rest, index, base);
      var h := handlers[index + 1];
      assert rest[0] == h && rest[1..] == handlers[index + 2..];
      if h.PassesOn? {
        ContinueRuns(handlers, index + 1, WithCallback(Slot(Some(base), false), h.callback).func.value);
      }
    }
  }

  lemma HandledFront(from: int, n: nat)
    requires n > 0
    ensures HandledInOrder(from, n) == [Handled(from)] + HandledInOrder(from + 1, n - 1)
  {
  }

  /** An invocation runs its handlers once each, in order, up to the first that ends it, and then every
      registered callback exactly once. */
  lemma InvokeOrder(handlers: seq<Handler>, last: nat)
    ensures var rs, ok := Registered(handlers), Result(handlers);
      Continue(handlers, -1, Slot(Some(One(last)), false)) ==
        HandledInOrder(0, Running(handlers)) + (SyncLatestFirst(rs, ok) + [Ran(last, ok)] + AsyncInOrder(rs, ok))
  {
    if handlers == [] {
      assert HandledInOrder(0, 0) == [];
    } else {
      ContinueRuns(handlers, -1, One(last));
      assert handlers[0..] == handlers;
      ComposedOrder(last, Registered(handlers), Result(handlers));
    }
  }

  function WithAll(slot: Slot, rs: seq<Registration>): Slot {
    if rs == [] then slot else WithCallback(WithAll(slot, rs[..|rs| - 1]), Some(rs[|rs| - 1]))
  }

  /** Without a callback of Invoke, the first registration takes its place, with its own mode. */
  lemma {:induction false} FirstTakesAll(r: Registration, rs: seq<Registration>)
    ensures WithAll(Slot(None, false), [r] + rs) == Slot(Some(Compose(One(r.id), rs)), r.async)
  {
    if rs == [] {
      assert [r] + rs == [r] && [r][..0] == [];
    } else {
      FirstTakesAll(r, rs[..|rs| - 1]);
      assert ([r] + rs)[..|rs|] == [r] + rs[..|rs| - 1];
    }
  }

  /** The order that is promised when Invoke has no callback of its own. */
  function Promised(rs: seq<Registration>, ok: bool): seq<Event> {
    SyncLatestFirst(rs, ok) + AsyncInOrder(rs, ok)
  }

  lemma {:induction false} PromisedFront(r: Registration, rs: seq<Registration>, ok: bool)
    ensures !r.async ==> SyncLatestFirst([r] + rs, ok) == SyncLatestFirst(rs, ok) + [Ran(r.id, ok)]
    ensures !r.async ==> AsyncInOrder([r] + rs, ok) == AsyncInOrder(rs, ok)
  {
    if rs == [] {
      assert [r] + rs == [r] && [r][..0] == [];
    } else {
      PromisedFront(r, rs[..|rs| - 1], ok);
      assert ([r] + rs)[..|rs|] == [r] + rs[..|rs| - 1];
    }
  }

  lemma {:induction false} PromisedLength(rs: seq<Registration>, ok: bool)
    ensures |SyncLatestFirst(rs, ok)| + |AsyncInOrder(rs, ok)| == |rs|
  {
    if rs != [] {
      PromisedLength(rs[..|rs| - 1], ok);
    }
  }

  /** Without a callback of Invoke, any list of registrations runs in the promised order exactly when it has at
      most one of them or its first is synchronous: an asynchronous first one takes all later ones to the pool
      with it, the synchronous ones included. */
  lemma {:induction false} PromisedOrderExact(rs: seq<Registration>, ok: bool)
    ensures Finish(WithAll(Slot(None, false), rs), ok) == Promised(rs, ok) <==> |rs| <= 1 || !rs[0].async
  {
    if rs != [] {
      var r, rest := rs[0], rs[1..];
      assert rs == [r] + rest;
      FirstTakesAll(r, rest);
      if r.async {
        PromisedLength(rs, ok);
        if |rs| == 1 {
          assert rest == [] && rs[..0] == [];
        }
      } else {
        ComposedOrder(r.id, rest, ok);
        PromisedFront(r, rest, ok);
      }
    }
  }

  lemma {:induction false} WithAllFront(slot: Slot, r: Registration, rs: seq<Registration>)
    ensures WithAll(slot, [r] + rs) == WithAll(WithCallback(slot, Some(r)), rs)
  {
    if rs == [] {
      assert [r] + rs == [r] && [r][..0] == [];
    } else {
      WithAllFront(slot, r, rs[..|rs| - 1]);
      assert ([r] + rs)[..|rs|] == [r] + rs[..|rs| - 1];
    }
  }

  lemma WithAllRegistered(rest: seq<Handler>, slot: Slot)
    requires rest != [] && rest[0].PassesOn?
    ensures WithAll(slot, Registered(rest)) == WithAll(WithCallback(slot, rest[0].callback), Registered(rest[1..]))
  {
    if rest[0].callback.Some? {
      WithAllFront(slot, rest[0].callback.value, Registered(rest[1..]));
    } else {
      assert [] + Registered(rest[1..]) == Registered(rest[1..]);
    }
  }

  /** From any slot: the remaining handlers run in order, then the slot with all their registrations finishes. */
  lemma {:induction false} ContinueFinishes(handlers: seq<Handler>, index: int, slot: Slot)
    requires -1 <= index < |handlers|
    ensures var rest := handlers[index + 1..];
      Continue(handlers, index, slot) ==
        HandledInOrder(index + 1, Running(rest)) + Finish(WithAll(slot, Registered(rest)), Result(rest))
    decreases |handlers| - index
  {
    var rest := handlers[index + 1..];
    if rest == [] {
      assert HandledInOrder(index + 1, 0) == [];
    } else {
      assert rest[0] == handlers[index + 1] && rest[1..] == handlers[index + 2..];
      HandledFront(index + 1, Running(rest));
      var tail := HandledInOrder(index + 2, Running(rest) - 1);
      Regroup([Handled(index + 1)], tail, Finish(WithAll(slot, Registered(rest)), Result(rest)));
      if rest[0].Ends? {
        assert tail == [];
      } else {
        WithAllRegistered(rest, slot);
        ContinueFinishes(handlers, index + 1, WithCallback(slot, rest[0].callback));
      }
    }
  }

  lemma SamePrefix(a: seq<Event>, b: seq<Event>, c: seq<Event>)
    ensures a + b == a + c <==> b == c
  {
    assert (a + b)[|a|..] == b && (a + c)[|a|..] == c;
  }

  /** Over every handler list invoked without a callback: the handlers run in order, and then the callbacks in the
      promised order, exactly when at most one was registered or the first registered one is synchronous. */
  lemma InvokeWithoutCallbackExact(handlers: seq<Handler>)
    ensures var rs, ok := Registered(handlers), Result(handlers);
      Continue(handlers, -1, Slot(None, false)) == HandledInOrder(0, Running(handlers)) + Promised(rs, ok)
      <==> |rs| <= 1 || !rs[0].async
  {
    var rs, ok := Registered(handlers), Result(handlers);
    PromisedOrderExact(rs, ok);
    if handlers == [] {
      assert HandledInOrder(0, 0) == [];
    } else {
      ContinueFinishes(handlers, -1, Slot(None, false));
      assert handlers[0..] == handlers;
      SamePrefix(HandledInOrder(0, Running(handlers)), Finish(WithAll(Slot(None, false), rs), ok), Promised(rs, ok));
    }
  }
}
