# Debounce — a Dafny model of `debounce(fn, wait)`

The repository provides one utility, `debounce(fn, wait)` in
`src/debounce.ts`. It returns a callable `D` that delays calling `fn`
until `wait` time units have passed since the most recent call. Each call
cancels the previously scheduled call and captures the new argument list.
`D.clear()` cancels the scheduled call. `D.flush()` runs it at once.
`D.pending` reports whether a call is scheduled.

The model is split into modules that follow that structure:

- `Timers` (`timers.dfy`) is the host's timer facility as data: a discrete
  clock, a counter that issues fresh handles, and the map of live timers.
  `SetTimeout` schedules a callback `delay` units from now and `ClearTimeout`
  cancels one. A timer may fire once its due time has been reached.
- `Events` (`events.dfy`) is what can happen: `Invoke(args)` is a call of `D`,
  then `Clear`, `Flush`, `Fire(id)` (the host offers to run timer `id`) and
  `Tick(d)` (time passes). It also defines the trace measures used below:
  call counts, time since the last call, the last call's arguments, and bursts.
  A burst starts with a call of `D`. It holds only calls, time passing, and
  fires offered while less than `wait` has passed since the last call.
- `Debounce` (`debounce.dfy`) models the code as written. The closure's two
  variables `timeout` and `flush` are independent `Option`s. The deferred
  `flush` closure is represented by the argument list it captured.
  Running the deferred action means `clear()` and then a call of `fn`.
  A call of `fn` appends its argument list to the step's call log.
  `Step` is total: a fire of a timer that is not live, or not yet due, does nothing.
  The world a step returns is the state `fn` is entered in, and anything
  `fn` then does to `D` is a later event.
- `Machine` (`machine.dfy`) is the abstract state machine, defined
  independently of the code: `Idle | Pending(args, id, due)` with a clock
  and the next handle. It carries the lemmas over traces.
- `Refinement` (`refinement.dfy`) defines the representation invariant
  `Inv`: `timeout` holds a handle exactly when a deferred action exists,
  that handle is the only live timer, and that timer runs the deferred
  action. It proves that every event preserves `Inv` and that every event
  moves the abstraction `Abs` exactly as `Machine` does, with the same calls.
- `Properties` (`properties.dfy`) states the promises of `D` about the
  code's model. Some are about one event. The trace theorems are carried
  over from `Machine` through the refinement.
- `Scenarios` (`scenarios.dfy`) holds three concrete runs of `debounce(f, 100)`.

The deferred action in the code calls `debounced.clear()`, which cancels
whatever handle `timeout` holds at that moment, not necessarily its own.
Under `Inv`, the only deferred action that can run is the current one, so
the two coincide. `Refinement.StepRefines` is where this is established.

## Model

| member | source | states |
|---|---|---|
| Timers.SetTimeout | src/debounce.ts:24 | scheduling returns a handle that is not already live, adds exactly that timer, due `delay` units from now and running the given callback, and leaves every other live timer as it was |
| Timers.ClearTimeout | src/debounce.ts:29 | cancelling removes exactly that handle and leaves every other live timer as it was |
| Debounce.Init | src/debounce.ts:15-16 | a fresh debounced function holds no handle and no deferred action, owns no timer, and is well formed |
| Debounce.IsPending | src/debounce.ts:39-41 | in a well-formed world, `pending` is true exactly when a deferred action exists and exactly when a timer is live |
| Debounce.ClearOp | src/debounce.ts:27-33 | after `clear()` no handle is held; when one was held, the deferred action is dropped and exactly that timer is cancelled; on a function holding no handle `clear()` changes nothing |
| Debounce.RunDeferred | src/debounce.ts:20-23 | the deferred action calls `fn` exactly once, with the captured arguments; before it does, both closure variables are null and the held timer is cancelled, and on a function holding no handle nothing else changes |
| Debounce.InvokeOp | src/debounce.ts:18-25 | after `D(args)` the function is pending, its deferred action carries exactly `args`, the held timer is due `wait` from now and runs `args`, and the previously held timer is cancelled |
| Debounce.FlushOp | src/debounce.ts:35-37 | `flush()` with a deferred action calls `fn` once with its arguments and leaves nothing pending; in a well-formed world it also drops the deferred action and cancels the held timer; without a deferred action it changes nothing and calls nothing |
| Debounce.FireOp | src/debounce.ts:20-24 | the host firing a live, due timer calls `fn` once with that timer's captured arguments, removes the timer and leaves nothing pending; in a well-formed world the deferred action is dropped and no timer stays live; firing any other timer changes nothing |
| Refinement.Abs | src/debounce.ts:39-41 | the `pending` getter is true exactly when the abstract state is `Pending` |
| Refinement.InitIdle | src/debounce.ts:15-16 | a fresh debounced function satisfies the invariant, is not pending, and stands for the idle machine |
| Refinement.StepPreservesInv | src/debounce.ts:15-33 | every event preserves: handle held exactly when a deferred action exists, it is the only live timer, and it runs that action |
| Refinement.StepRefines | src/debounce.ts:18-37 | each event moves the abstract state exactly as the abstract state machine does and calls `fn` with the same arguments |
| Refinement.RunRefines | src/debounce.ts:18-37 | the same for every trace of events, from any well-formed state |
| Machine.IdleStaysQuiet | src/debounce.ts:27-37 | an idle debouncer calls nothing and stays idle until the next call of `D` |
| Machine.PendingDeliversAtMostOnce | src/debounce.ts:20-37 | without a new call, the pending arguments are delivered at most once and nothing else is delivered; after delivery the machine is idle |
| Machine.BurstLeavesLastPending | src/debounce.ts:18-24 | after a burst of calls nothing is delivered, and the machine is pending with the last call's arguments and handle, due `wait` after the last call |
| Machine.BurstThenFire | src/debounce.ts:19-24 | after a burst, a fire delivers the last arguments exactly when it is the last call's timer and `wait` has passed since that call |
| Properties.InvokeSupersedes | src/debounce.ts:18-24 | a call calls nothing, leaves exactly one live timer due `wait` from now running the new arguments, and cancels the earlier timer |
| Properties.ClearCancels | src/debounce.ts:27-33 | `clear()` calls nothing and leaves no deferred action and no live timer; it is a no-op when idle and idempotent |
| Properties.FlushForces | src/debounce.ts:20-23 | `flush()` on a pending function calls `fn` once with the captured arguments, leaves it idle, and the original timer can no longer fire |
| Properties.FireDeliversOnlyCurrent | src/debounce.ts:19-24 | a fire calls `fn` exactly when it is the live timer and is due; then it delivers the captured arguments once and leaves the function idle, and otherwise it changes nothing |
| Properties.ResetBeforeCall | src/debounce.ts:20-22 | whenever an event calls `fn`, the state `fn` is entered in is idle: `pending` reads false there and `clear()` and `flush()` there do nothing |
| Properties.ClearSuppresses | src/debounce.ts:27-33 | after `clear()`, `fn` is never called before the next call of `D`, whatever fires and however much time passes |
| Properties.FlushDeliversOnce | src/debounce.ts:29-37 | after `flush()` on a pending function, the captured arguments are the only call of `fn` until the next call of `D` |
| Properties.DeliveredAtMostOnce | src/debounce.ts:18-24 | after a call of `D` and until the next one, `fn` is called at most once, and only with that call's arguments |
| Properties.Coalesce | src/debounce.ts:18-24 | after a burst of calls nothing has been called, and the function is pending on the last call's timer with the last call's arguments, due `wait` after the last call |
| Properties.CoalesceThenFlush | src/debounce.ts:18-24 | a burst of calls followed by `flush()` calls `fn` exactly once, with the last call's arguments |
| Properties.CoalesceThenFire | src/debounce.ts:18-24 | a burst of calls followed by a fire calls `fn` once with the last arguments exactly when it is the last call's timer and `wait` has passed since that call; otherwise it stays pending |
| Properties.NoCallBeforeWait | src/debounce.ts:24 | after a call, while less than `wait` has passed, no fire calls `fn` and the function stays pending |
| Properties.CallAfterWait | src/debounce.ts:20-24 | once `wait` has passed after a call, firing its timer calls `fn` with its arguments and leaves the function idle |
| Scenarios.SecondCallWins | src/debounce.ts:18-24 | `D(1)`, 50 units, `D(2)`, 100 units: the first timer calls nothing and the second calls `f(2)` |
| Scenarios.FlushRunsAtOnce | src/debounce.ts:35-41 | `D("a")` then `flush()` calls `f("a")` at once and leaves nothing pending |
| Scenarios.ClearCancelsCall | src/debounce.ts:27-33 | `D("x")` then `clear()`: whatever the host fires and however much time passes afterwards, `f` is never called before the next call of `D` |

## Left out

- Real `setTimeout`/`clearTimeout` and wall-clock accuracy. The host is a discrete clock and a map of live timers. A timer may fire at any time after it is due, which models the host's lateness as an arbitrary delay.
- The `+setTimeout(...)` numeric coercion and the `typeof timeout === "number"` tests (src/debounce.ts:24, 28, 40). A handle is a natural number and `null` is `None`.
- `wait` is a natural number. The host's treatment of a negative, fractional or non-numeric delay, and its minimum-delay clamping, are not modelled. Nor is the 32-bit limit on delays: Node and browsers run a timer whose delay exceeds 2147483647 ms after about 1 ms, so for such a `wait` the delay promises (`Properties.NoCallBeforeWait`, `Properties.CoalesceThenFire`) do not hold on a real host.
- The `this` binding of `fn.call(debounced, ...)` and the TypeScript parameter typing (src/debounce.ts:12, 22). `fn` is a log entry of its argument list.
- Reentrant calls from inside `fn` are not nested inside the step that calls `fn`. They are the following events of the trace, starting from the world the step returns, which is the state `fn` is entered in.
- Exceptions thrown by `fn`. The state is already idle when `fn` is entered (`Properties.ResetBeforeCall`), which is all that an exception could observe.
- Other code's timers on the same host. The host map holds only this debouncer's timers.
