/**
 What the debounced function promises its callers, stated about the model
 of the code: first one event at a time, then over whole traces (the trace
 theorems are carried over from the abstract state machine).
 */
module Properties {
  import opened Wrappers
  import opened Timers
  import opened Events
  import opened Debounce
  import opened Machine
  import opened Refinement

  // ---------------------------------------------------------------------
  // One event at a time

  /**
   A call leaves the function pending on a fresh timer, due `wait` from now,
   that runs exactly the new arguments; the earlier timer, if any, is
   cancelled, and nothing is called.
   */
  lemma InvokeSupersedes<A>(w: World<A>, args: A)
    requires Inv(w)
    ensures var o := Step(w, Invoke(args));
      && o.calls == []
      && IsPending(o.world)
      && o.world.deb == Debouncer(Some(w.host.nextId), Some(args))
      && o.world.host.timers == map[w.host.nextId := Timer(w.host.now + w.wait, args)]
      && (w.deb.timeout.Some? ==> w.deb.timeout.value !in o.world.host.timers)
  {
  }

  /**
   `clear()` calls nothing and leaves nothing pending or scheduled; on an
   idle function it changes nothing, so a second `clear()` is a no-op.
   */
  lemma ClearCancels<A>(w: World<A>)
    requires Inv(w)
    ensures var o := Step(w, Clear);
      && o.calls == []
      && !IsPending(o.world)
      && o.world.deb.flush.None?
      && o.world.host.timers == map[]
      && Step(o.world, Clear) == o
    ensures !IsPending(w) ==> Step(w, Clear) == Outcome(w, [])
  {
  }

  /**
   `flush()` on a pending function calls `fn` once with the captured
   arguments, synchronously, and leaves it idle with the original timer
   cancelled, so that timer firing later calls nothing. On an idle function
   it changes nothing.
   */
  lemma FlushForces<A>(w: World<A>)
    requires Inv(w)
    ensures IsPending(w) ==>
      var o := Step(w, Flush);
      && o.calls == [w.deb.flush.value]
      && !IsPending(o.world)
      && w.deb.timeout.value !in o.world.host.timers
      && Step(o.world, Fire(w.deb.timeout.value)) == Outcome(o.world, [])
    ensures !IsPending(w) ==> Step(w, Flush) == Outcome(w, [])
  {
  }

  /**
   The host firing timer `id` calls `fn` exactly when `id` is the live timer
   and it is due; it then delivers the captured arguments once and leaves
   the function idle. A fire for a cancelled, superseded or not yet due
   timer changes nothing.
   */
  lemma FireDeliversOnlyCurrent<A>(w: World<A>, id: TimerId)
    requires Inv(w)
    ensures var o := Step(w, Fire(id));
      if w.deb.timeout == Some(id) && w.host.timers[id].due <= w.host.now then
        && o.calls == [w.deb.flush.value]
        && !IsPending(o.world)
        && o.world.host.timers == map[]
      else
        o == Outcome(w, [])
  {
  }

  /**
   The state is reset before `fn` runs: whenever an event calls `fn`, the
   world `fn` is entered in is idle, so reading `pending` there gives false,
   `clear()` and `flush()` there do nothing, and `fn` throwing cannot leave
   the function pending.
   */
  lemma ResetBeforeCall<A>(w: World<A>, e: Event<A>)
    requires Inv(w)
    ensures var o := Step(w, e);
      o.calls != [] ==>
        && !IsPending(o.world)
        && Step(o.world, Clear) == Outcome(o.world, [])
        && Step(o.world, Flush) == Outcome(o.world, [])
  {
  }

  // ---------------------------------------------------------------------
  // Whole traces

  /**
   Once `clear()` is called, `fn` is never called again until the next call
   of the debounced function, whatever the host fires and however much time
   passes.
   */
  lemma {:induction false} ClearSuppresses<A>(w: World<A>, es: seq<Event<A>>)
    requires Inv(w)
    requires NoInvoke(es)
    ensures Run(w, [Clear] + es).calls == []
    ensures !IsPending(Run(w, [Clear] + es).world)
  {
    var s := SpecStep(Abs(w), Clear).spec;
    assert ([Clear] + es)[0] == Clear && ([Clear] + es)[1..] == es;
    RunRefines(w, [Clear] + es);
    IdleStaysQuiet(s, es);
  }

  /**
   `flush()` on a pending function delivers the captured arguments, and
   until the next call nothing else is ever delivered: in particular not by
   the original timer.
   */
  lemma {:induction false} FlushDeliversOnce<A>(w: World<A>, es: seq<Event<A>>)
    requires Inv(w)
    requires IsPending(w)
    requires NoInvoke(es)
    ensures Run(w, [Flush] + es).calls == [w.deb.flush.value]
  {
    var s := SpecStep(Abs(w), Flush).spec;
    assert ([Flush] + es)[0] == Flush && ([Flush] + es)[1..] == es;
    RunRefines(w, [Flush] + es);
    IdleStaysQuiet(s, es);
  }

  /**
   The arguments of a call are delivered at most once, and nothing else is
   delivered, until the next call.
   */
  lemma {:induction false} DeliveredAtMostOnce<A>(w: World<A>, args: A, es: seq<Event<A>>)
    requires Inv(w)
    requires NoInvoke(es)
    ensures Run(w, [Invoke(args)] + es).calls == [] || Run(w, [Invoke(args)] + es).calls == [args]
  {
    var s := SpecStep(Abs(w), Invoke(args)).spec;
    assert ([Invoke(args)] + es)[0] == Invoke(args) && ([Invoke(args)] + es)[1..] == es;
    RunRefines(w, [Invoke(args)] + es);
    PendingDeliversAtMostOnce(s, es);
  }

  /**
   Coalescing: after a burst (calls and time passing, with fires only while
   less than `wait` has passed since the last call), `fn` has not been
   called, and the function is pending with the last call's arguments, on
   the timer issued for the last call, due `wait` units after the last call.
   */
  lemma Coalesce<A>(w: World<A>, es: seq<Event<A>>)
    requires Inv(w)
    requires Burst(es, w.wait)
    ensures var o := Run(w, es);
      && Inv(o.world)
      && o.calls == []
      && o.world.deb.timeout == Some(w.host.nextId + InvokeCount(es) - 1)
      && o.world.deb.flush == Some(LastArgs(es))
      && o.world.host.timers[w.host.nextId + InvokeCount(es) - 1].due + SinceLastInvoke(es)
         == o.world.host.now + w.wait
  {
    RunRefines(w, es);
    BurstLeavesLastPending(Abs(w), es);
    AbsPending(Run(w, es).world);
  }

  /** A burst of calls followed by `flush()` calls `fn` once, with the last call's arguments. */
  lemma CoalesceThenFlush<A>(w: World<A>, es: seq<Event<A>>)
    requires Inv(w)
    requires Burst(es, w.wait)
    ensures Run(w, es + [Flush]).calls == [LastArgs(es)]
  {
    RunRefines(w, es + [Flush]);
    BurstLeavesLastPending(Abs(w), es);
    SpecRunSnoc(Abs(w), es, Flush);
  }

  /**
   A burst of calls followed by the host firing timer `id` calls `fn` once,
   with the last call's arguments, when `id` is the last call's timer and
   `wait` has passed since the last call; otherwise it calls nothing. The
   function stays pending exactly when nothing was called.
   */
  lemma CoalesceThenFire<A>(w: World<A>, es: seq<Event<A>>, id: TimerId)
    requires Inv(w)
    requires Burst(es, w.wait)
    ensures Run(w, es + [Fire(id)]).calls ==
      if id + 1 == w.host.nextId + InvokeCount(es) && SinceLastInvoke(es) >= w.wait
      then [LastArgs(es)] else []
    ensures IsPending(Run(w, es + [Fire(id)]).world) <==> Run(w, es + [Fire(id)]).calls == []
  {
    RunRefines(w, es + [Fire(id)]);
    BurstThenFire(Abs(w), es, id);
  }

  /**
   Delay: after a call, as long as less than `wait` has passed, no fire of
   any timer calls `fn`.
   */
  lemma NoCallBeforeWait<A>(w: World<A>, args: A, es: seq<Event<A>>)
    requires Inv(w)
    requires forall i :: 0 <= i < |es| ==> es[i].Tick? || es[i].Fire?
    requires SinceLastInvoke([Invoke(args)] + es) < w.wait
    ensures Run(w, [Invoke(args)] + es).calls == []
    ensures IsPending(Run(w, [Invoke(args)] + es).world)
  {
    var bs := [Invoke(args)] + es;
    forall k | 0 <= k < |bs|
      ensures InBurst(bs[..k], bs[k], w.wait)
    {
      if k > 0 {
        SinceLastInvokeGrows(bs, k);
      }
    }
    Coalesce(w, bs);
  }

  /** Delay: once `wait` has passed after a call, the host firing its timer delivers it. */
  lemma CallAfterWait<A>(w: World<A>, args: A, d: nat)
    requires Inv(w)
    requires d >= w.wait
    ensures Run(w, [Invoke(args), Tick(d), Fire(w.host.nextId)]).calls == [args]
    ensures !IsPending(Run(w, [Invoke(args), Tick(d), Fire(w.host.nextId)]).world)
  {
    var bs := [Invoke(args), Tick(d)];
    assert InBurst(bs[..0], bs[0], w.wait) && InBurst(bs[..1], bs[1], w.wait);
    SnocMeasures([], Invoke(args));
    assert [] + [Invoke(args)] == [Invoke(args)] && [Invoke(args)] + [Tick(d)] == bs;
    SnocMeasures([Invoke(args)], Tick(d));
    assert bs + [Fire(w.host.nextId)] == [Invoke(args), Tick(d), Fire(w.host.nextId)];
    CoalesceThenFire(w, bs, w.host.nextId);
  }
}
