/**
 What can happen to a debounced function: a call `D(args)`, `D.clear()`,
 `D.flush()`, the host firing a timer, and time passing. Also the
 measures over event traces that the trace theorems are stated with.
 */
module Events {
  import opened Timers

  datatype Event<A> =
    | Invoke(args: A)
    | Clear
    | Flush
    | Fire(id: TimerId)
    | Tick(delta: nat)

  /** No call of the debounced function itself occurs in the trace. */
  predicate NoInvoke<A>(es: seq<Event<A>>)
  {
    forall i :: 0 <= i < |es| ==> !es[i].Invoke?
  }

  /** How many calls of the debounced function the trace holds. */
  function InvokeCount<A>(es: seq<Event<A>>): (r: nat)
  {
    if |es| == 0 then 0
    else InvokeCount(es[..|es| - 1]) + (if es[|es| - 1].Invoke? then 1 else 0)
  }

  /** The time that passes after the last call in the trace. */
  function SinceLastInvoke<A>(es: seq<Event<A>>): (r: nat)
  {
    if |es| == 0 then 0
    else match es[|es| - 1]
      case Invoke(_) => 0
      case Tick(d) => SinceLastInvoke(es[..|es| - 1]) + d
      case _ => SinceLastInvoke(es[..|es| - 1])
  }

  /** The argument list of the last call in a trace that starts with a call. */
  function LastArgs<A>(es: seq<Event<A>>): (r: A)
    requires |es| > 0 && es[0].Invoke?
  {
    if es[|es| - 1].Invoke? then es[|es| - 1].args else LastArgs(es[..|es| - 1])
  }

  /**
   Event `e`, following the prefix `before`, belongs to a burst of rapid
   calls: it is a call, time passing, or the host offering to fire a timer
   while less than `wait` has passed since the last call.
   */
  predicate InBurst<A>(before: seq<Event<A>>, e: Event<A>, wait: nat)
  {
    match e
    case Invoke(_) => true
    case Tick(_) => true
    case Fire(_) => SinceLastInvoke(before) < wait
    case _ => false
  }

  /**
   A burst: a trace that starts with a call of the debounced function and
   holds only calls, time passing, and fires offered while less than `wait`
   has passed since the last call; no clear and no flush. Time passing is
   not bounded, so a fire that comes late enough is what ends a burst.
   */
  predicate Burst<A>(es: seq<Event<A>>, wait: nat)
  {
    && |es| > 0
    && es[0].Invoke?
    && forall k :: 0 <= k < |es| ==> InBurst(es[..k], es[k], wait)
  }

  /** How each trace measure changes when one event is appended. */
  lemma SnocMeasures<A>(es: seq<Event<A>>, e: Event<A>)
    ensures InvokeCount(es + [e]) == InvokeCount(es) + (if e.Invoke? then 1 else 0)
    ensures SinceLastInvoke(es + [e]) ==
      match e
      case Invoke(_) => 0
      case Tick(d) => SinceLastInvoke(es) + d
      case _ => SinceLastInvoke(es)
    ensures e.Invoke? && (|es| == 0 || es[0].Invoke?) ==> LastArgs(es + [e]) == e.args
    ensures !e.Invoke? && |es| > 0 && es[0].Invoke? ==> LastArgs(es + [e]) == LastArgs(es)
  {
    assert (es + [e])[..|es|] == es;
  }

  /** Without a call in between, the time since the last call only grows along a trace. */
  lemma {:induction false} SinceLastInvokeGrows<A>(es: seq<Event<A>>, k: nat)
    requires k <= |es|
    requires forall i :: k <= i < |es| ==> !es[i].Invoke?
    ensures SinceLastInvoke(es[..k]) <= SinceLastInvoke(es)
    decreases |es| - k
  {
    if k < |es| {
      var n := |es| - 1;
      assert es[..n][..k] == es[..k];
      SinceLastInvokeGrows(es[..n], k);
    } else {
      assert es[..k] == es;
    }
  }
}
