/** Concrete runs of `debounce(f, 100)` from a fresh start. */
module Scenarios {
  import opened Events
  import opened Debounce
  import opened Refinement
  import opened Properties

  /** `D(1)`, 50 units, `D(2)`, 100 units: a burst of two calls, the last 100 units ago. */
  lemma TwoCallBurst()
    ensures var bs: seq<Event<int>> := [Invoke(1), Tick(50), Invoke(2), Tick(100)];
      && Burst(bs, 100)
      && InvokeCount(bs) == 2
      && SinceLastInvoke(bs) == 100
      && LastArgs(bs) == 2
  {
    var b1: seq<Event<int>> := [Invoke(1)];
    var b2 := b1 + [Tick(50)];
    var b3 := b2 + [Invoke(2)];
    var bs := b3 + [Tick(100)];
    assert [] + b1 == b1 && bs == [Invoke(1), Tick(50), Invoke(2), Tick(100)];
    SnocMeasures([], Invoke(1));
    SnocMeasures(b1, Tick(50));
    SnocMeasures(b2, Invoke(2));
    SnocMeasures(b3, Tick(100));
    assert forall k :: 0 <= k < |bs| ==> !bs[k].Fire? && !bs[k].Clear? && !bs[k].Flush?;
  }

  /**
   `D(1)`, 50 units later `D(2)`, then 100 units pass: the first timer is
   gone, so firing it calls nothing, and firing the second calls `f(2)`.
   */
  lemma SecondCallWins()
    ensures Run(Init<int>(100), [Invoke(1), Tick(50), Invoke(2), Tick(100), Fire(0)]).calls == []
    ensures Run(Init<int>(100), [Invoke(1), Tick(50), Invoke(2), Tick(100), Fire(1)]).calls == [2]
  {
    var bs: seq<Event<int>> := [Invoke(1), Tick(50), Invoke(2), Tick(100)];
    InitIdle<int>(100);
    TwoCallBurst();
    CoalesceThenFire(Init<int>(100), bs, 0);
    CoalesceThenFire(Init<int>(100), bs, 1);
    assert bs + [Fire(0)] == [Invoke(1), Tick(50), Invoke(2), Tick(100), Fire(0)];
    assert bs + [Fire(1)] == [Invoke(1), Tick(50), Invoke(2), Tick(100), Fire(1)];
  }

  /** `D("a")` then `D.flush()`: `f("a")` is called at once and nothing is pending. */
  lemma FlushRunsAtOnce()
    ensures Run(Init<string>(100), [Invoke("a"), Flush]).calls == ["a"]
    ensures !IsPending(Run(Init<string>(100), [Invoke("a"), Flush]).world)
  {
    var es := [Invoke("a"), Flush];
    assert es[1..] == [Flush] && es[1..][1..] == [];
  }

  /**
   `D("x")` then `D.clear()`: whatever the host fires and however much time
   passes afterwards, `f` is never called until the next call of `D`.
   */
  lemma {:induction false} ClearCancelsCall(es: seq<Event<string>>)
    requires NoInvoke(es)
    ensures Run(Init<string>(100), [Invoke("x"), Clear] + es).calls == []
  {
    var w := Init<string>(100);
    var first := Step(w, Invoke("x"));
    StepPreservesInv(w, Invoke("x"));
    ClearSuppresses(first.world, es);
    var all := [Invoke("x"), Clear] + es;
    assert all[0] == Invoke("x") && all[1..] == [Clear] + es;
  }
}
