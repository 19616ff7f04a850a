# EventEmitter listener-count table

A Dafny model of the listener-count bookkeeping in puppeteer's
`EventEmitter` (`src/EventEmitter.ts`). The class keeps a
`Map<string, number>` from event name to a count. `on` and `off` update the
count in place. `once` registers a self-removing wrapper. `listenerCount`
reads the count back.

The model follows the code as written, including its JavaScript quirks:

- `if (existingCounts)` treats an absent entry, `0` and `NaN` alike (all falsy), so `on` stores 1 for each of them.
- `off` subtracts one with no guard. Counts can go negative, and `off` on an absent entry stores `undefined - 1`, which is `NaN`.
- `listenerCount` returns `get(event) || 0`, which hides `NaN` and `0` but reports negative counts as they are.
- `once` registers its wrapper directly with the underlying emitter, so the count does not change. When the wrapper fires, it calls `this.off`, which lowers an integer count by one; an absent or NaN entry becomes NaN.

`off` is not clamped at zero, and `once` does not go through `on`; the model
keeps both.

Files:

- `js_number.dfy` (module `JsNumber`): a count is `Int(n)` or `NaN`, and a lookup result is an `Option` whose `None` stands for `undefined`. It also defines truthiness, `+ 1`, `- 1` and `|| 0`.
- `listener_counts.dfy` (module `ListenerCounts`): the table as a `map<string, Count>`, the functions `OnTable`, `OffTable` and `ListenerCountOf` that specify each operation, and lemmas about them. Among those lemmas are the inverse properties and the n − m result for a balanced run of `on`s and `off`s.
- `event_emitter.dfy` (module `Emitter`): the class `EventEmitter`. Its methods update the `listenerCounts` field in place, and each method's `ensures` ties the new table to the specifying function. The module also has two client methods that follow `once` through to the firing of its wrapper.

## Model

| member | source | states |
|---|---|---|
| JsNumber.Truthy | src/EventEmitter.ts:14 | the test `if (existingCounts)` fails exactly for an absent entry, 0 and NaN; every other integer, negative ones included, passes |
| JsNumber.Plus1 | src/EventEmitter.ts:15 | `existingCounts + 1` is NaN exactly when the count is NaN, and otherwise the integer one higher |
| ListenerCounts.Get | src/EventEmitter.ts:13 | `listenerCounts.get(event)` is defined exactly when the event has an entry, and then yields that entry; otherwise it is `undefined` |
| JsNumber.Minus1 | src/EventEmitter.ts:25 | `existingCounts - 1` gives NaN exactly when the entry is absent or NaN, and otherwise the integer one lower, with no floor |
| JsNumber.OrZero | src/EventEmitter.ts:42 | `x \|\| 0` is nonzero exactly when `x` is truthy, and then equals it; absent, 0 and NaN give 0 |
| ListenerCounts.OnTable | src/EventEmitter.ts:11-19 | after `on`, an absent, 0 or NaN entry becomes exactly 1, and a nonzero integer n (negative included) becomes n + 1; the event is present afterwards and every other entry is unchanged |
| ListenerCounts.OffTable | src/EventEmitter.ts:21-26 | after `off`, an integer n becomes n − 1 with no lower bound, and an absent or NaN entry becomes NaN; the event is present afterwards and every other entry is unchanged |
| ListenerCounts.ListenerCountOf | src/EventEmitter.ts:41-43 | `listenerCount` is the stored integer when there is one, and 0 for an absent or NaN entry |
| ListenerCounts.OnThenTwoOffsReportsMinusOne | src/EventEmitter.ts:13-25 | on a fresh event, one `on` and two `off`s store −1, and `listenerCount` reports −1 |
| ListenerCounts.OffOnAbsentStoresNaN | src/EventEmitter.ts:13-42 | `off` on an absent event stores NaN, `listenerCount` then reports 0, and a following `on` stores 1 |
| ListenerCounts.OtherEventsUnaffected | src/EventEmitter.ts:11-26 | `on` and `off` for one event do not change what `listenerCount` reports for any other event |
| ListenerCounts.OffUndoesOn | src/EventEmitter.ts:13-42 | `off` after `on` always restores the count that `listenerCount` reports |
| ListenerCounts.OnUndoesOffIffInteger | src/EventEmitter.ts:13-42 | `on` after `off` restores the reported count if and only if the entry held an integer; from absent or NaN it reports 1 instead of 0 |
| ListenerCounts.NetCountsOps | src/EventEmitter.ts:15-25 | the net effect of a run (+1 per `on`, −1 per `off`) is the number of `on`s minus the number of `off`s |
| ListenerCounts.RunFromAbsent | src/EventEmitter.ts:13-25 | from a table without the event, a run in which the count is at least 1 before every `off` stores the integer #on − #off ≥ 0 (or leaves the table alone when the run is empty) and touches no other event |
| ListenerCounts.BalancedRunReportsNet | src/EventEmitter.ts:13-42 | from an empty table, n `on`s and m `off`s on one event, with the count never below 1 before an `off`, make `listenerCount` report n − m |
| Emitter.EventEmitter.constructor | src/EventEmitter.ts:5-9 | a new emitter has an empty count table and no pending once-wrappers |
| Emitter.EventEmitter.On | src/EventEmitter.ts:11-19 | replaces the table by `OnTable` of the old table, in place |
| Emitter.EventEmitter.Off | src/EventEmitter.ts:21-26 | replaces the table by `OffTable` of the old table, in place |
| Emitter.EventEmitter.Once | src/EventEmitter.ts:32-39 | leaves the count table unchanged and records one pending wrapper for the event |
| Emitter.EventEmitter.FireOnce | src/EventEmitter.ts:33-36 | a pending wrapper fires: the table becomes `OffTable` of the old one, and the wrapper is no longer pending |
| Emitter.EventEmitter.ListenerCount | src/EventEmitter.ts:41-43 | returns the stored integer, or 0 for an absent or NaN entry, and changes nothing |
| Emitter.OnThenOnceFired | src/EventEmitter.ts:11-42 | on a new emitter, `on` reports 1, a following `once` still reports 1, and after the wrapper fires the report is 0 |
| Emitter.OnceFiredOnFreshEvent | src/EventEmitter.ts:25-42 | a `once` that fires on an event without an `on` leaves NaN in the table, and `listenerCount` reports it as 0 |

## Left out

- The underlying `mitt` emitter (src/EventEmitter.ts:1, 4, 8, 12, 22, 29, 38) is not part of this model. Its source is not available, so its handler lists cannot be modelled. The only part of it kept here is which once-wrappers are registered and have not fired yet (`pendingOnce`).
- `emit` and handler invocation (src/EventEmitter.ts:28-30, 34) are left out. The payloads are untyped and the handlers are opaque closures. The firing of a once-wrapper is an explicit call, `FireOnce`.
- The `handler` arguments of `on`, `off` and `once` are left out. They only reach `mitt`, and the count table ignores which handler is passed.
- Reentrant calls during dispatch and exceptions thrown by handlers are left out. The code does not handle either.
- JavaScript number semantics beyond integers and the single NaN case are left out. Counts only ever start at 1 and move by ±1, so the model uses unbounded integers and does not model precision loss beyond 2^53.
- The constructor is private in the source (src/EventEmitter.ts:7-9). The model only keeps the fact that the table starts empty.
