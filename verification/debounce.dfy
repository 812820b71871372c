/**
 The debounced function of src/debounce.ts as the code writes it. Its
 closure holds two variables: `timeout`, the handle of the scheduled timer,
 and `flush`, the deferred action bound to the arguments of the latest
 call. The deferred action is represented by the argument list it captured;
 running it means clearing the debouncer and then calling `fn` with that
 list, and a call of `fn` is recorded as an entry of the call log.
 */
module Debounce {
  import opened Wrappers
  import opened Timers
  import opened Events

  /** The two closure variables; `None` is `null`. */
  datatype Debouncer<A> = Debouncer(timeout: Option<TimerId>, flush: Option<A>)

  /**
   A debounced function together with the host timers it owns. A timer's
   callback is the deferred action it was given, so it has type `A` too.
   */
  datatype World<A> = World(wait: nat, host: Host<A>, deb: Debouncer<A>)

  /**
   The world after an event, and the argument lists passed to `fn`, in
   order. When a call is made, `world` is the state `fn` is entered in:
   anything `fn` does to the debouncer is a later event.
   */
  datatype Outcome<A> = Outcome(world: World<A>, calls: seq<A>)

  /**
   A fresh debounced function on a host whose clock reads zero: both closure
   variables start out null, so it is well formed and not pending.
   */
  function Init<A>(wait: nat): (r: World<A>)
    ensures Inv(r) && !IsPending(r)
    ensures r.wait == wait && r.host.timers == map[]
  {
    World(wait, Host(0, 0, map[]), Debouncer(None, None))
  }

  /**
   The `pending` getter: whether `timeout` holds a handle. In a well-formed
   world that is exactly when a deferred action exists.
   */
  function IsPending<A>(w: World<A>): (p: bool)
    ensures Inv(w) ==> (p <==> w.deb.flush.Some?)
    ensures Inv(w) ==> (p <==> w.host.timers != map[])
  {
    w.deb.timeout.Some?
  }

  /**
   The representation invariant: a handle is held exactly when a deferred
   action exists, that handle is the only live timer, and the timer runs
   the deferred action.
   */
  ghost predicate Inv<A>(w: World<A>)
  {
    match w.deb.timeout
    case None =>
      && w.deb.flush.None?
      && w.host.timers == map[]
    case Some(t) =>
      && w.deb.flush.Some?
      && t < w.host.nextId
      && w.host.timers.Keys == {t}
      && w.host.timers[t].callback == w.deb.flush.value
  }

  /** `D.clear()`: when a handle is held, cancel it and drop both variables. */
  function ClearOp<A>(w: World<A>): (r: World<A>)
    ensures !IsPending(r)
    ensures !IsPending(w) ==> r == w
    ensures IsPending(w) ==>
      && r.deb.flush.None?
      && r.host.timers.Keys == w.host.timers.Keys - {w.deb.timeout.value}
    ensures r.wait == w.wait && r.host.now == w.host.now && r.host.nextId == w.host.nextId
  {
    match w.deb.timeout
    case Some(t) => w.(host := ClearTimeout(w.host, t), deb := Debouncer(None, None))
    case None => w
  }

  /**
   The deferred action: clear the debouncer first, which drops both closure
   variables and cancels the held timer, then call `fn` with `args`.
   */
  function RunDeferred<A>(w: World<A>, args: A): (o: Outcome<A>)
    ensures !IsPending(o.world)
    ensures o.calls == [args]
    ensures IsPending(w) ==>
      && o.world.deb == Debouncer(None, None)
      && o.world.host.timers.Keys == w.host.timers.Keys - {w.deb.timeout.value}
    ensures !IsPending(w) ==> o.world == w
  {
    Outcome(ClearOp(w), [args])
  }

  /**
   `D(args)`: clear, capture `args` in a new deferred action, and schedule
   it `wait` units from now.
   */
  function InvokeOp<A>(w: World<A>, args: A): (r: World<A>)
    ensures IsPending(r) && r.deb.flush == Some(args)
    ensures r.deb.timeout.value in r.host.timers
    ensures r.host.timers[r.deb.timeout.value] == Timer(w.host.now + w.wait, args)
    ensures w.deb.timeout.Some? && w.deb.timeout.value < w.host.nextId ==>
      w.deb.timeout.value !in r.host.timers
  {
    var cleared := ClearOp(w);
    var s := SetTimeout(cleared.host, args, w.wait);
    cleared.(host := s.host, deb := Debouncer(Some(s.id), Some(args)))
  }

  /** `D.flush()`: run the deferred action if there is one. */
  function FlushOp<A>(w: World<A>): (o: Outcome<A>)
    ensures w.deb.flush.Some? ==> o.calls == [w.deb.flush.value] && !IsPending(o.world)
    ensures w.deb.flush.None? ==> o == Outcome(w, [])
    ensures Inv(w) && w.deb.flush.Some? ==>
      && o.world.deb.flush.None?
      && w.deb.timeout.value !in o.world.host.timers
  {
    match w.deb.flush
    case Some(args) => RunDeferred(w, args)
    case None => Outcome(w, [])
  }

  /**
   The host fires timer `id`: if it is live and due, the host drops it and
   runs its callback; otherwise nothing happens.
   */
  function FireOp<A>(w: World<A>, id: TimerId): (o: Outcome<A>)
    ensures Due(w.host, id) ==>
      && o.calls == [w.host.timers[id].callback]
      && !IsPending(o.world)
      && id !in o.world.host.timers
    ensures !Due(w.host, id) ==> o == Outcome(w, [])
    ensures Inv(w) && Due(w.host, id) ==> o.world.deb.flush.None? && o.world.host.timers == map[]
  {
    if Due(w.host, id) then
      RunDeferred(w.(host := ClearTimeout(w.host, id)), w.host.timers[id].callback)
    else
      Outcome(w, [])
  }

  /** One event, and the calls of `fn` it makes. */
  function Step<A>(w: World<A>, e: Event<A>): (o: Outcome<A>)
  {
    match e
    case Invoke(args) => Outcome(InvokeOp(w, args), [])
    case Clear => Outcome(ClearOp(w), [])
    case Flush => FlushOp(w)
    case Fire(id) => FireOp(w, id)
    case Tick(d) => Outcome(w.(host := Advance(w.host, d)), [])
  }

  /** Runs a trace of events, concatenating the calls each event makes. */
  function Run<A>(w: World<A>, es: seq<Event<A>>): (o: Outcome<A>)
    decreases |es|
  {
    if |es| == 0 then Outcome(w, [])
    else
      var first := Step(w, es[0]);
      var rest := Run(first.world, es[1..]);
      Outcome(rest.world, first.calls + rest.calls)
  }
}
