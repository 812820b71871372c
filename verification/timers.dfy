/**
 The host's timer facility (setTimeout / clearTimeout) as data rather than
 real time: a discrete clock, a counter that issues fresh handles, and the
 map of timers that are still scheduled. Only the timers of one debouncer
 are tracked.
 */
module Timers {

  /** An opaque handle issued by the host. */
  type TimerId = nat

  /** A scheduled callback: the earliest time it may run and what it runs. */
  datatype Timer<C> = Timer(due: nat, callback: C)

  datatype Host<C> = Host(now: nat, nextId: TimerId, timers: map<TimerId, Timer<C>>)
  {
    /** Every live handle was issued earlier, so a handle still to be issued is fresh. */
    ghost predicate Valid()
    {
      forall id :: id in timers ==> id < nextId
    }
  }

  /** The host after scheduling, and the handle it returned. */
  datatype Scheduled<C> = Scheduled(host: Host<C>, id: TimerId)

  /** Schedules `callback` to run `delay` time units from now. */
  function SetTimeout<C>(h: Host<C>, callback: C, delay: nat): (r: Scheduled<C>)
    ensures h.Valid() ==> r.id !in h.timers && r.host.Valid()
    ensures r.host.timers.Keys == h.timers.Keys + {r.id}
    ensures r.host.timers[r.id] == Timer(h.now + delay, callback)
    ensures forall other :: other in h.timers && other != r.id ==> r.host.timers[other] == h.timers[other]
    ensures r.host.now == h.now
  {
    Scheduled(h.(nextId := h.nextId + 1, timers := h.timers[h.nextId := Timer(h.now + delay, callback)]), h.nextId)
  }

  /** Cancels a timer; a handle that is not live is ignored. */
  function ClearTimeout<C>(h: Host<C>, id: TimerId): (r: Host<C>)
    ensures r.timers.Keys == h.timers.Keys - {id}
    ensures forall other :: other in r.timers ==> r.timers[other] == h.timers[other]
    ensures h.Valid() ==> r.Valid()
  {
    h.(timers := h.timers - {id})
  }

  /** The host may run timer `id` now: it is still scheduled and its delay has elapsed. */
  predicate Due<C>(h: Host<C>, id: TimerId)
  {
    id in h.timers && h.timers[id].due <= h.now
  }

  /** Lets `delta` time units pass. */
  function Advance<C>(h: Host<C>, delta: nat): (r: Host<C>)
  {
    h.(now := h.now + delta)
  }
}
