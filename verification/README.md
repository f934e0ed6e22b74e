# jest-mock-demo core, modelled in Dafny

This project models the three pieces of logic in the jest-mock-demo repository:

- the `Metronome` class (metronome.js). It is a two-state machine, Stopped or Running, over a bpm value and an interval-timer handle. It emits `start`, `tick` and `stop` events.
- the handler chain `applyHandlers(handlers, inputValue)` (apply-handlers.js). It returns the first result that is not `undefined`.
- the callback-style reverser `reverseStringWithCallback(input, callback)` (reverse-callback.js).

Files:

- `wrappers.dfy` — `Option` and `Result`.
- `clock.dfy` (`VirtualClock`) — splits a stretch of virtual time into whole timer periods plus a remainder.
- `metronome.dfy` (`MetronomeMachine`) — the state `Metronome(bpm, timer)`. The `running` getter is `Running()`; the `bpm` getter is the `bpm` field. `Start`, `Stop` and the setter `SetBpm` are pure transitions that return the new state and the events emitted in order. The setter can instead return the error it throws. Two more transitions model the timer: `NextTick` fires the pending interval callback, and `Advance(ms)` lets virtual time pass.
- `metronome_trace.dfy` (`MetronomeTrace`) — sequences of calls (`Run`) and the event traces they produce. An automaton over `Idle` and `Active(bpm)` states the ordering promise. The file ends with the recorded test scenarios.
- `handlers.dfy` (`HandlerChain`) — each handler is a function from the input to `Ret(value or undefined)` or `Throw(error)`. `FirstDefined` is the recursive reference definition. `ApplyHandlers` is the loop of the source, and it is proved equal to `FirstDefined`.
- `reverse.dfy` (`ReverseCallback`) — the input is `Str(s)` or `NonStr`. The method returns the list of callback invocations, each with its argument list.

Points where the model follows the code rather than the prose around it:

- The tick callback reads the bpm live (metronome.js:75), not a copy taken when `start()` ran. The model emits the current bpm. The two readings agree as long as listeners neither throw nor call back into the metronome: `Valid` ties a live timer's interval to the current bpm, and the setter restarts a running metronome whenever the bpm changes. A listener that does call back can make them differ (see "## Left out").
- The setter's doc comment (metronome.js:33) says it rejects values "not greater than zero". The code rejects values below 1 (metronome.js:44), and so does the model. For example, 0.5 is rejected with `RangeError`.

## Model

| member | source | states |
|---|---|---|
| MetronomeMachine.New | metronome.js:3-19 | A new metronome is stopped, its bpm is `DEFAULT_BPM` = 60, and it satisfies the class invariant. |
| MetronomeMachine.Interval | metronome.js:73 | The tick period lies in (0, 60000] ms for every bpm ≥ 1, and period × bpm = 60000 ms: one beat per 60000/bpm ms. |
| MetronomeMachine.Metronome.Running | metronome.js:59-61 | `running` holds exactly when a timer handle is held. |
| MetronomeMachine.Start | metronome.js:67-77 | On a running metronome `start()` changes nothing and emits nothing. On a stopped one it emits exactly `start(bpm)`, becomes running at the same bpm, and installs a fresh timer at the bpm's period. |
| MetronomeMachine.Stop | metronome.js:84-92 | Afterwards the metronome is always stopped with its bpm unchanged. A running one emits exactly one payload-free `stop`. A stopped one changes nothing and emits nothing. |
| MetronomeMachine.SetBpm | metronome.js:35-54 | The value equal to the current bpm is a complete no-op, even while running, and keeps the pending tick timing. A non-number throws `TypeError` and a number below 1 throws `RangeError`, with the type check first. Any valid value sets the bpm and keeps the running state. When stopped it emits nothing. When running it emits exactly `stop`, `start(new bpm)` and installs a timer at the new period. |
| MetronomeMachine.NextTick | metronome.js:74-76 | The interval callback can fire only while running. It emits exactly one `tick` carrying the current bpm, keeps the bpm, and starts the next period. |
| MetronomeMachine.Advance | metronome.js:73-76 | Letting time pass emits only `tick`s with the current bpm and never changes the bpm or the running state. A stopped metronome emits nothing. For a running one, ticks × period + new pending time = old pending time + elapsed ms, and the new pending time stays below one period. |
| MetronomeTrace.Exec | metronome.js:35-92 | Every public call keeps the class invariant. Only the `bpm` setter can throw: the source has no other `throw`, and listeners are assumed not to throw (see "## Left out"). |
| MetronomeTrace.Run | metronome.js:35-92 | A sequence of calls keeps the class invariant, and it can fail only if it contains a setter call. |
| MetronomeTrace.RunErrIsPrefix | metronome.js:35-92 | A failed sequence is a successful prefix followed by one call that throws. The error is that call's error, and the events reported with it are exactly the prefix's events. |
| MetronomeTrace.SetBpmTraceAccepted | metronome.js:48-53 | The events of a successful bpm change form an accepted trace that ends in the new state's phase. |
| MetronomeTrace.AdvanceTraceAccepted | metronome.js:74-76 | The ticks emitted while time passes form an accepted trace that stays in the current phase. |
| MetronomeTrace.ExecTraceAccepted | metronome.js:67-92 | Every single call emits a trace the start/tick/stop automaton accepts from the old state's phase, and the trace ends in the new state's phase. |
| MetronomeTrace.RunTraceAccepted | metronome.js:67-92 | Every sequence of calls from any reachable state emits an accepted trace: `start` only when idle, `tick(b)` only inside a run started at b, `stop` only inside a run. A sequence cut short by a throw has emitted an accepted trace up to the throw. |
| MetronomeTrace.StopIsFollowedByStart | metronome.js:79-92 | In an accepted trace, the event right after a `stop` is always a `start`. No tick comes after a stop until the next start. |
| MetronomeTrace.TickBelongsToRun | metronome.js:72-76 | Each `tick(b)` in an accepted trace has one of two sources. Either the trace began inside a run at b, or an earlier `start(b)` exists. In both cases no `stop` comes between that point and the tick. |
| MetronomeTrace.StopsFollowedByStart | metronome.js:79-92 | For every call sequence on a new metronome, the event right after any `stop` is a `start`. This holds for the events delivered before a throw as well. |
| MetronomeTrace.TicksFollowAStart | metronome.js:63-77 | For every call sequence on a new metronome, every `tick(b)` has an earlier `start(b)` with no `stop` between them. This holds for the events delivered before a throw as well. |
| MetronomeTrace.NextTickIsAdvance | metronome.js:73-76 | Firing the pending callback is the same as letting exactly the rest of the current period pass. |
| MetronomeTrace.AdvanceAdditive | metronome.js:74-76 | Advancing by a and then by b gives the same state as advancing by a + b, and the same ticks in the same order. |
| MetronomeTrace.TicksAfterStart | metronome.js:72-76 | After a fresh `start()`, letting T ms pass yields k ticks carrying the bpm, where k is the whole number with k·(60000/bpm) ≤ T < (k+1)·(60000/bpm), that is ⌊T / (60000/bpm)⌋. |
| MetronomeTrace.ThreeSecondsAt120 | 5-timer-mocks.test.js:54-56 | At 120 bpm, from the start of a period, 3000 ms yields exactly six ticks of 120. |
| MetronomeTrace.RecordedSetterCases | 5-timer-mocks.test.js:84-136 | A string throws `TypeError` and 0 throws `RangeError`. `bpm++` while stopped emits nothing and stays stopped. Assigning the same bpm while running emits nothing. `bpm++` while running emits `stop` then `start(new bpm)`. A throw after `start()` still reports the `start` event already delivered. |
| MetronomeTrace.GoldenPath | 5-timer-mocks.test.js:19-63 | The golden-path test produces exactly start(60), tick(60), stop, start(120), tick(120), six tick(120), stop. It ends stopped at 120 bpm. |
| HandlerChain.FirstDefined | apply-handlers.js:11-21 | Every invoked handler gets `inputValue`, and the invoked handlers are a prefix of the list. All invoked handlers but the last returned `undefined`. The result is `undefined` exactly when every handler returned `undefined`, and then all were invoked. Otherwise the result is what the last invoked handler did. |
| HandlerChain.ApplyHandlers | apply-handlers.js:11-21 | The `for … of` loop with its early return computes exactly the reference dispatch `FirstDefined`: the same outcome and the same calls. |
| HandlerChain.DispatchDetermined | apply-handlers.js:11-21 | The documented behaviour determines the dispatch uniquely. Any outcome and call list that meet it equal `FirstDefined`. |
| HandlerChain.FirstDefinedStopsAtDecider | apply-handlers.js:12-17 | When handler k is the first whose result is not `undefined`, the result is handler k's result, and exactly handlers 0..k are invoked. No later handler runs. |
| HandlerChain.ThrowPropagates | apply-handlers.js:12-17 | A handler that throws after only `undefined` results makes the call throw the same error, and no later handler is invoked. |
| HandlerChain.AllUndefinedGivesUndefined | apply-handlers.js:20 | If every handler returns `undefined`, or the list is empty, the result is `undefined` and every handler was called with the input. |
| HandlerChain.NoThrowReturns | apply-handlers.js:11-21 | The chain keeps no state between calls: if no handler throws on the input, the call returns normally. |
| HandlerChain.MockedBehaviour | 2-mocking-behavior.test.js:79-93 | The recorded mock sequence: `undefined`, then "foo", then a throw of "bar" after two calls, then "baz". |
| ReverseCallback.Reverse | reverse-callback.js:14 | The reversed string has the same number of code points as the input, and position i holds input position n−1−i. |
| ReverseCallback.ReverseInvolution | reverse-callback.js:14 | Reversing the output again gives back the original string. |
| ReverseCallback.ReverseCodePoints | reverse-callback.js:14 | Copying code points from last to first produces exactly the mirror-image reversal. |
| ReverseCallback.ReverseStringWithCallback | reverse-callback.js:8-15 | The callback is invoked exactly once. For a non-string it gets only `Error('Input must be a string')`. For a string it gets `null` and the reversed string. |
| ReverseCallback.HelloReversed | 1-creating-mock-functions.test.js:51-56 | "hello" reverses to "olleh", and "olleh" back to "hello". |

## Left out

- Listener registration on Node's `EventEmitter`: multiple listeners per event and `error`-event semantics are library behaviour. Emitting is modelled as appending to the returned event list.
- Listeners that throw or call back into the metronome. Every listener is assumed to return normally and not to call `start()`, `stop()` or the `bpm` setter. `emit` calls listeners synchronously and lets their exceptions escape, and the source emits before it finishes updating its fields. None of the trace lemmas hold for other listeners (`RunTraceAccepted`, `ExecTraceAccepted`, `SetBpmTraceAccepted`, `StopIsFollowedByStart`, `StopsFollowedByStart`, `TickBelongsToRun`, `TicksFollowAStart`). Neither do `Valid`, nor the error cases of `SetBpm`, `Exec` and `Run`. Four examples:
  - A throwing `start` listener makes `start()` throw at metronome.js:72, after `start` was delivered and before the timer is stored at metronome.js:74. The metronome stays stopped, and a second `start()` delivers `start` again: two `start`s with no `stop` between them.
  - A throwing `stop` listener inside the setter: the new bpm is already stored (metronome.js:48), and `stop()` has cleared the timer (metronome.js:89-90) before it emits. The setter throws an error that is neither `TypeError` nor `RangeError`, and the metronome is left stopped at the new bpm.
  - A `start` listener that calls `start()` once: the inner call sees no timer, emits `start` again and installs timer T1. The outer call then overwrites the handle with T2 (metronome.js:74). `stop()` clears only T2 (metronome.js:89), so T1 keeps emitting `tick` after `stop`.
  - A `start` listener that runs `metronome.bpm = 100` finds no timer at metronome.js:50, so the setter does not restart. The interval at metronome.js:73 is then computed from the new bpm, and the program emits `start(60)` followed by `tick(100)` every 600 ms.
- Real `setInterval`/`clearInterval`: a timer is a record of its period and its pending time. The fake-timer library's own delay handling, such as rounding a fractional delay to whole milliseconds, is not modelled: periods are exact reals.
- Floating point: `(60 / bpm) * 1000` is computed exactly over the reals, with no rounding.
- NaN and ±Infinity: the number domain of `JsValue` leaves them out. The code itself accepts NaN: `typeof NaN` is `'number'` and `NaN < 1` is false. It also accepts `Infinity`, whose interval is 0. So the model's invariant "bpm ≥ 1" holds only for the numbers modelled, not for every JavaScript value.
- The setter's `===` short-circuit is modelled only for numbers. The stored bpm is always a number, so a non-number never compares equal.
- Disposing of a running metronome without calling `stop()` has no counterpart: the model has no object lifetime.
- MetronomeTrace.Run: a thrown setter error ends the whole sequence, as an uncaught exception would, and is reported with the events emitted before it. The model does not cover a caller that catches the error and continues. That caller would see the state unchanged, because `SetBpm` returns no state on an error.
- Handlers are pure functions of the input. Jest's per-call mock programming (`mockReturnValueOnce`) appears as a different handler list on each call. A handler's side effects, its `this` binding, and a non-function entry in the array are not modelled.
- An exception thrown by the reverser's callback is not modelled, and neither is the callback's return value, which the source ignores.
- Strings are sequences of Unicode code points. A lone UTF-16 surrogate, which spreading a JavaScript string keeps as one element, has no counterpart.
- widget-factory.js (file reading and JSON parsing), dog.js (a getter and a template string), `__mocks__/fs/promises.js` (a test double) and the test files are not part of this model. The tests serve only as the source of the scenario lemmas.
