# Global polling timer and HTTP error normalisation, in Dafny

This project models the two pieces of logic in the solo-panel dashboard client.

- **The global timer store** (`src/store/timer.ts`). It is a process-wide registry of polling jobs keyed by id. All jobs share one browser interval. A subscriber counter starts that interval on the transition 0 → 1 and stops it whenever the count drops to 0 or below, clamping the count at 0. `registerJob` stores the job and calls it once immediately. It then adds a subscriber, even when the call threw. `unregisterJob` deletes the job and removes a subscriber, even when no job was stored under that id. On each elapse, the interval calls every stored job in the map's iteration order.
- **The REST instance's response interceptors** (`src/utils/http.ts`). The success interceptor passes a response through unchanged. `globalErrorResponseInterceptor` sorts a failed request into one of three classes, in priority order: a response was received, a request was sent with no answer, or neither. It builds one `Error` whose message depends on the class and whose `cause` carries the original error, the HTTP status (only when there was a response), a business code that is always `null`, and `isAxiosError: true`. It always rejects with that error.

Modules:

- `Wrappers` (`wrappers.dfy`) holds `Option` and `Result`.
- `Text` (`text.dfy`) holds decimal rendering of a number as a template literal prints it, its inverse, and `String.prototype.includes`.
- `JobTable` (`job_table.dfy`) models the `jobs` map. A JavaScript `Map` iterates in insertion order, and `set` on a present key keeps that key's position. So the map is modelled as its sequence of entries. A plain Dafny `map` serves as the reference view, and `set`/`delete` are proved to agree with map update and key removal.
- `GlobalTimer` (`global_timer.dfy`) holds the store as an immutable `Store` value. Each store function is a pure transition. The store also carries the browser's interval registry (handles issued, handles live) and a trace of every callback invocation.
- `TimerProperties` (`timer_properties.dfy`) holds the multi-step properties.
- `Http` and `HttpProperties` (`http.dfy`, `http_properties.dfy`) hold the interceptors and their properties.

Job callbacks are opaque `Action` tokens. The caller of a transition says whether a given call threw synchronously, and the trace records that flag. An elapse of the interval is an explicit `Tick` step. Only a live interval fires.

Facts about the code that the model keeps:

- **A tick does not isolate failures.** The interval callback at `src/store/timer.ts:19-23` has no try/catch, so a synchronous throw ends that tick's loop and the jobs after it are not called in that tick. `Fire` and `ThrowEndsTick` model this. Only the immediate call in `registerJob` (`src/store/timer.ts:38-45`) is guarded.
- **A tick follows the Map's insertion order.** `jobs.values()` yields entries in insertion order, and `set` on a present key keeps its position; the model's entry sequence does the same.
- **`removeSubscriber` stops on `<= 0`.** It decrements, and when the result is at most 0 it first clamps the count to 0 and then stops the timer (`src/store/timer.ts:61-64`).
- **`Number(...) || 15000` keeps every non-zero number.** Only a setting that converts to 0 (or to `NaN`, which the model represents as an unset value) is replaced by 15000; a negative number is kept.
- **Messages are the code's Chinese texts** (`src/utils/http.ts`), reproduced character for character.

## Model

| member | source | states |
|---|---|---|
| `GlobalTimer.IntervalFromEnv` | src/store/timer.ts:11 | the interval is never 0; a configured non-zero number is kept; an unset, unparsable or zero setting gives 15000 |
| `GlobalTimer.Init` | src/store/timer.ts:11-15 | the interval is the configured value as `Number(...) \|\| 15000` reads it (never 0); the store starts with no jobs, count 0, no interval, and satisfies the store invariant |
| `GlobalTimer.StartTimer` | src/store/timer.ts:17-26 | afterwards an interval is held; when one was already held nothing changes; otherwise exactly one fresh handle is issued and made live; jobs, count and trace are untouched |
| `GlobalTimer.StopTimer` | src/store/timer.ts:28-34 | afterwards no interval is held; with none held nothing changes; otherwise exactly the held handle stops being live |
| `GlobalTimer.AddSubscriber` | src/store/timer.ts:53-58 | the count goes up by one; the invariant is kept; a new interval is created exactly when the count was 0; from any other count the held handle and the interval registry are left alone |
| `GlobalTimer.RemoveSubscriber` | src/store/timer.ts:60-66 | the count never goes below 0 and drops by one from any positive value; no interval is held unless the count is positive; the interval is released exactly when the count was at most 1; from a count above 1 the held handle and the interval registry are left alone |
| `GlobalTimer.RegisterJob` | src/store/timer.ts:36-46 | the registry is exactly `set(id, …)` applied to the old one, so the job keeps its position when re-registered and is appended otherwise; `id` now maps to the new action and every other id keeps its lookup; exactly one immediate call of that action is logged; the count rises by one whether or not the call threw; an interval is live afterwards and is newly created exactly on 0 → 1, and from a positive count the held handle and the interval registry are left alone |
| `GlobalTimer.UnregisterJob` | src/store/timer.ts:48-51 | the registry is exactly `delete(id)` applied to the old one, so the remaining jobs keep their order; `id` is gone and every other id keeps its lookup; nothing is called; the count drops by one with a floor of 0, present id or not; the interval is gone afterwards exactly when the count was at most 1, and from a count above 1 the held handle and the interval registry are left alone |
| `GlobalTimer.Fire` | src/store/timer.ts:20-22 | the tick calls the jobs in iteration order, each with its stored action; a throw at position k ends the loop after k+1 calls, and with no throw every job is called |
| `GlobalTimer.Tick` | src/store/timer.ts:19-23 | only a live interval fires; an elapse changes nothing but the trace; a throw does not clear the interval |
| `GlobalTimer.Run` | src/store/timer.ts:36-66 | every sequence of registers, unregisters and elapses keeps the invariant: count ≥ 0, interval held iff count > 0, the held handle is the only live one, ids unique |
| `TimerProperties.AlwaysValid` | src/store/timer.ts:53-66 | from the initial store, after any steps, the count is non-negative, the interval is live iff the count is positive, and at most one interval is live |
| `TimerProperties.FireCallsEachJobOnce` | src/store/timer.ts:20-22 | a tick with no throw calls each stored (id, action) pair exactly once and calls nothing that is not stored |
| `TimerProperties.ThrowEndsTick` | src/store/timer.ts:19-22 | when the callback at position k throws, jobs after position k are not called in that tick and the interval stays live |
| `TimerProperties.NextTickCallsAllAgain` | src/store/timer.ts:19-23 | after a tick that a throw cut short, the next quiet tick calls every registered job again, the skipped ones included |
| `TimerProperties.TicksTrace` | src/store/timer.ts:19-23 | while the interval is live, n quiet elapses log the same round of calls, over the unchanged registry, n times in a row |
| `TimerProperties.TicksCallEachJob` | src/store/timer.ts:19-23 | while the interval is live, n quiet ticks call every stored job n more times with its current action |
| `TimerProperties.RegisteredJobCalledOncePlusTicks` | src/store/timer.ts:36-46 | a job registered once and left alone for n quiet ticks has been called 1 + n times, whether or not its immediate call threw |
| `TimerProperties.ReRegisterReplaces` | src/store/timer.ts:37 | after registering an id twice, the next tick calls the second action and never the first |
| `TimerProperties.DoubleRegisterCountsTwice` | src/store/timer.ts:36-54 | registering one id twice adds 2 to the count but the map only gains that key; one unregister then leaves the interval live with the id gone |
| `TimerProperties.StrayUnregisterStopsInterval` | src/store/timer.ts:48-65 | unregistering an absent id with one subscriber left stops the interval while another job stays stored, and later elapses call nothing |
| `TimerProperties.ImmediateThrowIsSwallowed` | src/store/timer.ts:39-45 | whether the immediate call threw changes only the logged flag: registry, count, interval and everything else are the same |
| `TimerProperties.TwoJobsThreeTicks` | src/store/timer.ts:11-23 | jobs A and B on a 1000 ms interval, after three elapses with no unregister, have each been called 4 times |
| `JobTable.Find` | src/store/timer.ts:13 | the position found holds the id and is its first occurrence; none is found exactly when the id is absent |
| `JobTable.AsMapLookup` | src/store/timer.ts:13 | the map view has a key exactly when the entry list holds that id, and with the same action |
| `JobTable.Put` | src/store/timer.ts:37 | after `set`, the id maps to the new action and every other lookup is unchanged; an existing id keeps its position (length unchanged), a new id is appended; unique ids stay unique |
| `JobTable.Remove` | src/store/timer.ts:49 | after `delete`, the id is absent and every other lookup is unchanged; one entry fewer exactly when the id was present; removing an absent id changes nothing; with unique ids the result is the entries before the removed one followed by those after it, in their original order |
| `JobTable.PutIsMapUpdate` | src/store/timer.ts:37 | `set` on the entry list is the same as updating the reference map |
| `JobTable.RemoveIsMapRemove` | src/store/timer.ts:49 | `delete` on the entry list is the same as removing the key from the reference map |
| `Text.DecimalString` | src/utils/http.ts:36 | a status renders as one or more decimal digits with no leading zero |
| `Text.DecimalRoundTrip` | src/utils/http.ts:36 | reading the rendered digits back gives the status |
| `Text.Contains` | src/utils/http.ts:44 | `includes` holds exactly when the word occurs at some position of the message |
| `Http.StatusTextRoundTrip` | src/utils/http.ts:36-39 | the synthesised `请求失败，状态码: <status>` message names its status: parsing it back gives the status |
| `Http.StatusText` | src/utils/http.ts:36-39 | the synthesised message is the fixed prefix followed by a non-empty run of decimal digits with no leading zero (except for status 0) that reads back as the status, which fixes the message uniquely |
| `Http.Classify` | src/utils/http.ts:29-52 | a response selects the server branch, otherwise a sent request selects the transport branch, otherwise the construction branch; exactly one branch applies |
| `Http.IsTimeout` | src/utils/http.ts:44 | a failure counts as a timeout exactly when its code is `ECONNABORTED` or `timeout` occurs at some position of its message |
| `Http.ServerMessage` | src/utils/http.ts:32-40 | a non-empty body `message` is used as is; a missing or empty message, or an unreadable body, gives the status text |
| `Http.Normalize` | src/utils/http.ts:22-64 | the cause carries the original error, `isAxiosError`, and no business code; a status is recorded iff there was a response, and it equals the response status; with a response the message comes from the body or the status; with a sent request only, the message is the timeout text iff the code is `ECONNABORTED` or the message contains `timeout`, and the network text otherwise; with neither, the message is the error's own non-empty message or the unknown-error text |
| `Http.ErrorInterceptor` | src/utils/http.ts:57-66 | the error interceptor always rejects, never resolves, and its rejection reason is exactly the normalised error, which keeps the original error |
| `Http.Intercept` | src/utils/http.ts:15-20 | a response resolves unchanged; a failure always rejects, with exactly the normalised error of that failure as the reason |
| `HttpProperties.ResponseTakesPriority` | src/utils/http.ts:29-41 | once a response exists, the request flag, the code and the error message do not affect the message or the status |
| `HttpProperties.StatusOnlyForServerErrors` | src/utils/http.ts:26-31 | a status is recorded exactly for the response class; the business code is always absent |
| `HttpProperties.FallbackNamesStatus` | src/utils/http.ts:36-39 | without a usable body message, the response status can be read back from the message |
| `HttpProperties.TimeoutDistinctFromRefused` | src/utils/http.ts:44-48 | a timed-out request and a refused connection get different messages |
| `HttpProperties.TimeoutWordAnywhere` | src/utils/http.ts:44 | `timeout` anywhere in the message gives the timeout text, whatever the code |
| `HttpProperties.NotFoundCase` | src/utils/http.ts:29-36 | a 404 with body message "not found" gives message "not found" and status 404 |
| `HttpProperties.UnreadableBodyCase` | src/utils/http.ts:36-39 | a 500 whose body is missing, has no message or has an empty one gives `请求失败，状态码: 500` and status 500 |
| `HttpProperties.DeadlineCase` | src/utils/http.ts:44-45 | axios's deadline error (`ECONNABORTED`, "timeout of 15000ms exceeded") gives the timeout text |
| `HttpProperties.ConstructionCase` | src/utils/http.ts:49-52 | with neither response nor request, the message is the error's own text, or the unknown-error text when that is empty, and no status is recorded |

## Left out

- Real time, `window.setInterval` and `clearInterval`. The interval is an abstract handle registry, and each elapse is an explicit `Tick` step. Elapsed milliseconds are not converted to a tick count.
- Promise semantics of job actions. An action that returns a rejected promise is not caught by the `try` in `registerJob`. Overlapping asynchronous runs cannot be modelled meaningfully either. Only "returned" versus "threw synchronously" is modelled.
- Re-entrant calls. An action that itself calls `registerJob` or `unregisterJob`, or changes the map during a tick's iteration, is not modelled.
- Vue/Pinia reactivity (`ref`, `defineStore`) and `console` logging. Both are glue with no effect on the state modelled.
- `Number(import.meta.env.VITE_GLOBAL_TIMER_INTERVAL)` is floating-point parsing. The setting is taken as `Option<int>`, with `None` for NaN. Fractional values are not modelled.
- Writes to `intervalMs`. The store exports it as a writable ref, and `startTimer` reads it each time it starts an interval, so a caller's write would change only the period of intervals started afterwards. No step writes it: `Run` keeps it fixed, and since elapses are abstract `Tick` steps the period would not affect anything modelled.
- The subscriber counter is a JavaScript number. Precision loss above 2^53 is not modelled.
- The axios instance configuration (base URL, 15 s timeout) and the un-intercepted blob instance. These are library configuration with no logic.
- A body `message` that is truthy but not a string (a number, an object) would be used as the message. The model only has string messages.
- `src/api/FlowResponse.ts` (the body type) is not part of this model. The REST wrappers, type declarations, router and bootstrap files have no logic of their own.
