/**
 The debouncer as an abstract state machine, independent of
 how the code stores its state: either idle, or pending with the captured
 arguments, the handle of the live timer and the time it becomes due.
 */
module Machine {
  import opened Timers
  import opened Events

  datatype Phase<A> = Idle | Pending(args: A, id: TimerId, due: nat)

  /** The machine with its clock and the next handle the host will issue. */
  datatype Spec<A> = Spec(wait: nat, now: nat, nextId: TimerId, phase: Phase<A>)

  datatype SpecOut<A> = SpecOut(spec: Spec<A>, calls: seq<A>)

  /**
   One transition: a call restarts the timer with the new arguments, clear
   goes idle silently, flush and a due fire of the live timer go idle and
   deliver the arguments, and anything else leaves the phase alone.
   */
  function SpecStep<A>(s: Spec<A>, e: Event<A>): (o: SpecOut<A>)
  {
    match e
    case Invoke(a) =>
      SpecOut(s.(nextId := s.nextId + 1, phase := Pending(a, s.nextId, s.now + s.wait)), [])
    case Clear =>
      SpecOut(s.(phase := Idle), [])
    case Flush =>
      if s.phase.Pending? then SpecOut(s.(phase := Idle), [s.phase.args]) else SpecOut(s, [])
    case Fire(id) =>
      if s.phase.Pending? && s.phase.id == id && s.phase.due <= s.now
      then SpecOut(s.(phase := Idle), [s.phase.args])
      else SpecOut(s, [])
    case Tick(d) =>
      SpecOut(s.(now := s.now + d), [])
  }

  function SpecRun<A>(s: Spec<A>, es: seq<Event<A>>): (o: SpecOut<A>)
    decreases |es|
  {
    if |es| == 0 then SpecOut(s, [])
    else
      var first := SpecStep(s, es[0]);
      var rest := SpecRun(first.spec, es[1..]);
      SpecOut(rest.spec, first.calls + rest.calls)
  }

  /** Running a trace extended by one event is running the trace, then that event. */
  lemma {:induction false} SpecRunSnoc<A>(s: Spec<A>, es: seq<Event<A>>, e: Event<A>)
    ensures SpecRun(s, es + [e]).spec == SpecStep(SpecRun(s, es).spec, e).spec
    ensures SpecRun(s, es + [e]).calls == SpecRun(s, es).calls + SpecStep(SpecRun(s, es).spec, e).calls
    decreases |es|
  {
    if |es| == 0 {
      assert es + [e] == [e];
    } else {
      var first := SpecStep(s, es[0]);
      assert (es + [e])[0] == es[0];
      assert (es + [e])[1..] == es[1..] + [e];
      SpecRunSnoc(first.spec, es[1..], e);
    }
  }

  /** The wait never changes. */
  lemma {:induction false} SpecRunKeepsWait<A>(s: Spec<A>, es: seq<Event<A>>)
    ensures SpecRun(s, es).spec.wait == s.wait
    decreases |es|
  {
    if |es| > 0 {
      SpecRunKeepsWait(SpecStep(s, es[0]).spec, es[1..]);
    }
  }

  /** An idle machine stays idle and silent until the next call. */
  lemma {:induction false} IdleStaysQuiet<A>(s: Spec<A>, es: seq<Event<A>>)
    requires s.phase.Idle?
    requires NoInvoke(es)
    ensures SpecRun(s, es).calls == []
    ensures SpecRun(s, es).spec.phase.Idle?
    decreases |es|
  {
    if |es| > 0 {
      assert !es[0].Invoke?;
      IdleStaysQuiet(SpecStep(s, es[0]).spec, es[1..]);
    }
  }

  /**
   Without a new call, the pending arguments are delivered at most once,
   the machine is still pending on the same timer or idle, and once the
   arguments are delivered it is idle.
   */
  lemma {:induction false} PendingDeliversAtMostOnce<A>(s: Spec<A>, es: seq<Event<A>>)
    requires s.phase.Pending?
    requires NoInvoke(es)
    ensures SpecRun(s, es).calls == [] || SpecRun(s, es).calls == [s.phase.args]
    ensures SpecRun(s, es).spec.phase == s.phase || SpecRun(s, es).spec.phase.Idle?
    ensures SpecRun(s, es).calls != [] ==> SpecRun(s, es).spec.phase.Idle?
    decreases |es|
  {
    if |es| > 0 {
      assert !es[0].Invoke?;
      var first := SpecStep(s, es[0]);
      if first.spec.phase.Idle? {
        IdleStaysQuiet(first.spec, es[1..]);
      } else {
        PendingDeliversAtMostOnce(first.spec, es[1..]);
      }
    }
  }

  /** A prefix of a burst that is not empty is a burst. */
  lemma BurstPrefix<A>(es: seq<Event<A>>, n: nat, wait: nat)
    requires Burst(es, wait)
    requires 0 < n <= |es|
    ensures Burst(es[..n], wait)
  {
    forall k | 0 <= k < n
      ensures InBurst(es[..n][..k], es[..n][k], wait)
    {
      assert es[..n][..k] == es[..k];
      assert InBurst(es[..k], es[k], wait);
    }
  }

  /**
   After a burst of calls nothing has been delivered, and the machine is
   pending with the last call's arguments, on the handle issued for the last
   call, due `wait` units after the last call.
   */
  lemma {:induction false} BurstLeavesLastPending<A>(s: Spec<A>, es: seq<Event<A>>)
    requires Burst(es, s.wait)
    ensures SpecRun(s, es).calls == []
    ensures SpecRun(s, es).spec.nextId == s.nextId + InvokeCount(es)
    ensures SpecRun(s, es).spec.phase.Pending?
    ensures SpecRun(s, es).spec.phase.args == LastArgs(es)
    ensures SpecRun(s, es).spec.phase.id + 1 == s.nextId + InvokeCount(es)
    ensures SpecRun(s, es).spec.phase.due + SinceLastInvoke(es) == SpecRun(s, es).spec.now + s.wait
    decreases |es|
  {
    var n := |es| - 1;
    var e := es[n];
    assert es == es[..n] + [e];
    if n == 0 {
      assert es == [e];
      assert InvokeCount(es[..0]) == 0;
    } else {
      BurstPrefix(es, n, s.wait);
      BurstLeavesLastPending(s, es[..n]);
      SpecRunSnoc(s, es[..n], e);
      SpecRunKeepsWait(s, es[..n]);
      assert InBurst(es[..n], e, s.wait);
    }
  }

  /**
   A burst followed by a fire of timer `id` delivers the last call's
   arguments exactly when `id` is the last call's timer and `wait` has
   passed since the last call; the machine stays pending exactly when
   nothing is delivered.
   */
  lemma BurstThenFire<A>(s: Spec<A>, es: seq<Event<A>>, id: TimerId)
    requires Burst(es, s.wait)
    ensures SpecRun(s, es + [Fire(id)]).calls ==
      if id + 1 == s.nextId + InvokeCount(es) && SinceLastInvoke(es) >= s.wait
      then [LastArgs(es)] else []
    ensures SpecRun(s, es + [Fire(id)]).spec.phase.Pending? <==> SpecRun(s, es + [Fire(id)]).calls == []
  {
    BurstLeavesLastPending(s, es);
    SpecRunKeepsWait(s, es);
    SpecRunSnoc(s, es, Fire(id));
  }
}
