/**
 The code's two closure variables implement the abstract state machine:
 every event preserves the representation invariant and moves the
 abstract state exactly as the machine does, making the same calls.
 */
module Refinement {
  import opened Wrappers
  import opened Timers
  import opened Events
  import opened Debounce
  import opened Machine

  /** The abstract state a well-formed world stands for. */
  function Abs<A>(w: World<A>): (s: Spec<A>)
    requires Inv(w)
    ensures s.phase.Pending? <==> IsPending(w)
  {
    Spec(w.wait, w.host.now, w.host.nextId,
         match w.deb.timeout
         case None => Idle
         case Some(t) => Pending(w.deb.flush.value, t, w.host.timers[t].due))
  }

  /** The abstract state that `Abs` gives back is read off the world. */
  lemma AbsPending<A>(w: World<A>)
    requires Inv(w)
    requires Abs(w).phase.Pending?
    ensures w.deb.timeout == Some(Abs(w).phase.id)
    ensures w.deb.flush == Some(Abs(w).phase.args)
    ensures w.host.timers[Abs(w).phase.id].due == Abs(w).phase.due
  {
  }

  /** A fresh debounced function is well formed and idle. */
  lemma InitIdle<A>(wait: nat)
    ensures Inv(Init<A>(wait))
    ensures !IsPending(Init<A>(wait))
    ensures Abs(Init<A>(wait)) == Spec(wait, 0, 0, Idle)
  {
  }

  /** Every event preserves the invariant. */
  lemma StepPreservesInv<A>(w: World<A>, e: Event<A>)
    requires Inv(w)
    ensures Inv(Step(w, e).world)
  {
  }

  /** Each event moves the abstract state as the abstract machine does and makes the same calls. */
  lemma StepRefines<A>(w: World<A>, e: Event<A>)
    requires Inv(w)
    ensures Inv(Step(w, e).world)
    ensures Abs(Step(w, e).world) == SpecStep(Abs(w), e).spec
    ensures Step(w, e).calls == SpecStep(Abs(w), e).calls
  {
  }

  /** The same over whole traces. */
  lemma {:induction false} RunRefines<A>(w: World<A>, es: seq<Event<A>>)
    requires Inv(w)
    ensures Inv(Run(w, es).world)
    ensures Abs(Run(w, es).world) == SpecRun(Abs(w), es).spec
    ensures Run(w, es).calls == SpecRun(Abs(w), es).calls
    decreases |es|
  {
    if |es| > 0 {
      StepRefines(w, es[0]);
      RunRefines(Step(w, es[0]).world, es[1..]);
    }
  }
}
