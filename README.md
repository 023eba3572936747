# async-eventemitter in Dafny

A model of `AsyncEventEmitter`, an event emitter built on Node's
`EventEmitter`. It adds two things. First, listeners can be put at a chosen
place in an event's dispatch order: `first`, `at`, `before` and `after`.
Second, `emit` runs the listeners one at a time. Each listener gets the
payload and a `next` callback. The run stops at the first listener that
passes an error to `next`. The final callback is called once.

The model has four modules:

- `JsValues` (`values.dfy`) holds the JavaScript values the emitter sees.
  - A `Listener` is a function compared by reference. `Plain(id)` is a
    function the caller wrote. `Adapter(wrapper, event, original)` is the
    adapter that `once` creates, tagged with the function it wraps.
  - `Born(l, bound)` says every adapter inside `l` already exists once
    `bound` adapters have been created.
  - A `Value` is any argument a caller passes in.
  - `Truthy` is JavaScript truthiness.
- `ListenerStore` (`store.dfy`) holds the per-event store `_events`, a `map`
  from event name to `Single(listener)` or `Many(listeners)`. It also defines,
  as functions:
  - the positional splice (`Insert`) and the reverse scan for the last
    occurrence (`LastIndex`, `Anchor`);
  - what an ordering operation does to the whole store (`Spliced`);
  - the base emitter's `on` and `removeListener` (`Appended`, `Removed`);
  - what invoking a chain of `once` adapters does (`Invoked`, `InvokedAll`).
- `Series` (`series.dfy`) holds how `emit` rewrites its arguments
  (`EmitArguments`) and the stop-on-first-error run of `async.eachSeries`
  (`RunFrom`, `EachSeries`).
- `Emitter` (`emitter.dfy`) holds the class `AsyncEventEmitter`.
  - It has the store as a mutable field `events`.
  - Its methods `First`, `At`, `Before`, `After`, `BeforeOrAfter`, `Once` and
    `Emit` follow the source statement by statement. The four ordering
    operations (`First`, `At`, and `Before`/`After` through `BeforeOrAfter`)
    read the entry, check the arguments, write back a normalised array, then
    splice.
  - Each method is proved to leave `events` equal to the matching function of
    the old store.
  - A thrown `TypeError` is a returned `Some(error)`, and the store is then
    unchanged.
  - `Valid()` says the store is compact (an array always holds two or more
    listeners) and holds only adapters that already exist. Every public
    method requires and keeps it. The exception is `ArrayFor`, the normalise
    step inside the ordering operations: it may leave a one-element array,
    which the splice right after it lengthens to two.
  - The methods that store or compare a listener (`On`, `First`, `At`,
    `Before`, `After`, `BeforeOrAfter`, `Once`) may be passed only listeners
    and targets that already exist (`Born(l, minted)`), because a JavaScript
    caller can only hold closures that exist. `RemoveListener` and `Emit`
    accept any value. With that, `Once` is proved to create an adapter that
    no event holds yet.

Some things become parameters rather than being modelled.

- Listeners are values, so `emit` is given what each listener will do:
  `reports(k)` is the value listener `k` of the run passes to `next`. A truthy
  value is an error, as in `async.eachSeries`.
- A fresh closure's identity is the `minted` counter.

On an event with no entry, `first`, `at`, `before` and `after` splice into a
local `[]` that is never stored (lib/AsyncEventEmitter.js:78, :97, :132), so
the store is unchanged (`SplicedEffect`).

## Model

| member | source | states |
|---|---|---|
| `ListenerStore.Insert` | lib/AsyncEventEmitter.js:112 | `splice(index, 0, x)` puts `x` at `min(index, |s|)`; everything before stays put, everything after shifts right by one in the same order, length grows by one |
| `ListenerStore.InsertAddsOne` | lib/AsyncEventEmitter.js:112 | the spliced array is the old one plus exactly `x` (as multisets): nothing is lost or duplicated |
| `ListenerStore.InsertEnds` | lib/AsyncEventEmitter.js:90 | `unshift` (insert at 0) prepends; an index at or past the end appends |
| `ListenerStore.InsertSplits` | lib/AsyncEventEmitter.js:112 | for an index within bounds the result is `s[..p] + [x] + s[p..]` |
| `ListenerStore.Anchor` | lib/AsyncEventEmitter.js:135-157 | the index `before`/`after` splice at is never past the end of the array |
| `ListenerStore.Normalized` | lib/AsyncEventEmitter.js:86-88 | the write-back keeps the same events, changes no other event's entry, and leaves an array for the event |
| `ListenerStore.Spliced` | lib/AsyncEventEmitter.js:108-112 | an ordering operation keeps the same events and leaves the event's entry an array one longer than before |
| `ListenerStore.Appended` | lib/AsyncEventEmitter.js:71 | the base emitter's `on` appends the listener to the event's listeners and changes no other event |
| `ListenerStore.Removed` | lib/AsyncEventEmitter.js:66 | the base emitter's `removeListener` takes out the last occurrence `i`, leaving `s[..i] + s[i + 1..]`, so exactly one `l` fewer as a multiset; a listener that is not there changes nothing; no other event changes; no event gains a listener |
| `ListenerStore.Invoked` | lib/AsyncEventEmitter.js:65-67 | invoking a listener never adds a listener to any event (the new listeners are a sub-multiset of the old) and never lengthens one |
| `ListenerStore.InvokedAll` | lib/AsyncEventEmitter.js:43-46 | a run of invocations never adds a listener to any event (sub-multiset) and never lengthens one |
| `ListenerStore.InvokedAdapterIsGone` | lib/AsyncEventEmitter.js:65-67 | a `once` adapter stored at most once for its event and invoked in a run is absent from that event after the run |
| `Emitter.OnceFiresOnce` | lib/AsyncEventEmitter.js:57-74 | after `once` appends a fresh adapter, an `emit` in which no listener reports an error invokes that adapter, and afterwards the event no longer holds it |
| `ListenerStore.AsArray` | lib/AsyncEventEmitter.js:41 | a lone function is read as the one-element array, an array as itself |
| `ListenerStore.ListenersOf` | lib/AsyncEventEmitter.js:22 | an event with no entry has no listeners, as `this._events[event] \|\| []` gives here and at :78, :97 and :132 |
| `JsValues.IsMetaEvent` | lib/AsyncEventEmitter.js:31 | the event is `newListener` or `removeListener` |
| `ListenerStore.LastIndex` | lib/AsyncEventEmitter.js:150-157 | the reverse scan finds an occurrence of the target with none after it, or reports none exactly when the target is absent |
| `ListenerStore.AnchorAtLastOccurrence` | lib/AsyncEventEmitter.js:135-159 | `before` inserts at the target's last occurrence `i`, `after` at `i + 1`, and the rest keeps its order |
| `ListenerStore.MissingTargetAppends` | lib/AsyncEventEmitter.js:150-159 | a target that is not registered makes `before`/`after` append |
| `ListenerStore.NormalizedKeepsListeners` | lib/AsyncEventEmitter.js:85-88 | writing a lone function back as a one-element array changes no event's listeners and leaves an array for that event |
| `ListenerStore.SplicedEffect` | lib/AsyncEventEmitter.js:97-112 | on an event with an entry the listeners become the spliced sequence; other events are untouched; an event with no entry leaves the whole store unchanged |
| `ListenerStore.SplicedSingle` | lib/AsyncEventEmitter.js:107-112 | a lone listener `a` is kept: the entry becomes the two-element array `[x, a]` (index 0) or `[a, x]` |
| `ListenerStore.OnceAdapterRemovesItself` | lib/AsyncEventEmitter.js:65-71 | a `once` adapter appended by `on` and then invoked removes itself, so every event's listeners are as before the registration |
| `JsValues.BornGrows` | lib/AsyncEventEmitter.js:65-70 | a closure that exists keeps existing when more adapters are created |
| `ListenerStore.InvokedRemovesAdapter` | lib/AsyncEventEmitter.js:65-67 | wherever it stands, an invoked adapter around a plain function removes its own last occurrence `i` from its event: the listeners become `s[..i] + s[i + 1..]`, and no other event changes |
| `ListenerStore.WellFormedGrows` | lib/AsyncEventEmitter.js:65-71 | creating another adapter keeps the store well-formed |
| `ListenerStore.UnbornIsAbsent` | lib/AsyncEventEmitter.js:65-71 | an adapter that has not been created yet is in no event's listeners |
| `ListenerStore.SplicedKeepsWellFormed` | lib/AsyncEventEmitter.js:86-90 | ordering operations with an existing listener keep the store compact (arrays have two or more listeners, a lone one is bare) and holding only existing adapters |
| `ListenerStore.AppendedKeepsWellFormed` | lib/AsyncEventEmitter.js:71 | the base emitter's append of an existing listener keeps the store well-formed |
| `ListenerStore.RemovedKeepsWellFormed` | lib/AsyncEventEmitter.js:66 | removal keeps the store well-formed |
| `ListenerStore.InvokedKeepsWellFormed` | lib/AsyncEventEmitter.js:65-67 | invoking a chain of `once` adapters keeps the store well-formed |
| `ListenerStore.InvokedAllKeepsWellFormed` | lib/AsyncEventEmitter.js:43-46 | a whole run of invocations keeps the store well-formed |
| `ListenerStore.InvokingPlainChangesNothing` | lib/AsyncEventEmitter.js:43-45 | a run over listeners that are not `once` adapters leaves the store unchanged |
| `ListenerStore.BeforeAfterExamples` | lib/AsyncEventEmitter.js:118-125 | on `[a, b, c]`: `before` b gives `[a, x, b, c]`, `after` b gives `[a, b, x, c]`, and with a target `t` not in the array both give `[a, b, c, x]` |
| `ListenerStore.AtExamples` | lib/AsyncEventEmitter.js:96-115 | on `[a, b, c]`: `at` 1 gives `[a, x, b, c]`, `at` 99 gives `[a, b, c, x]` |
| `Series.EmitArguments` | lib/AsyncEventEmitter.js:24-38 | for a meta-event no callback is forwarded and the payload is a `{event, fn}` record; otherwise a given callback leaves both arguments as they are |
| `Series.FunctionDataIsCallback` | lib/AsyncEventEmitter.js:25-28 | with no callback, a function `data` becomes the callback and the payload is undefined; other `data` stays the payload |
| `Series.MetaEventPayload` | lib/AsyncEventEmitter.js:31-38 | for `newListener`/`removeListener` the payload is `{event: data, fn: callback}` taken after the shift, and no callback is forwarded |
| `Series.EmitArgumentsIdempotent` | lib/AsyncEventEmitter.js:25-28 | outside the meta-events, rewriting already-rewritten arguments changes nothing |
| `Series.RunFrom` | lib/AsyncEventEmitter.js:43-46 | the run invokes listeners in order; it ends either after all of them with no error, or right after the first one whose report is truthy, with that report as the error; every earlier report is falsy |
| `Series.EachSeries` | lib/AsyncEventEmitter.js:43-46 | at most the `n` listeners run, and the run ends with no error exactly when no listener reports one |
| `Series.AllSucceed` | lib/AsyncEventEmitter.js:43-46 | if no listener reports an error, all run and the final callback gets no error, also for zero listeners |
| `Series.StopsAtFirstError` | lib/AsyncEventEmitter.js:43-46 | if listener `k` is the first to report an error, exactly `k + 1` listeners run and the final callback gets that error |
| `Series.RunIgnoresLaterReports` | lib/AsyncEventEmitter.js:43-46 | the run depends only on the reports of the listeners it invokes; listeners after the one that stops it make no difference |
| `Emitter.FindAnchor` | lib/AsyncEventEmitter.js:150-157 | the reverse loop with `break` yields the last occurrence of the target, plus one for `after`, or the length when the target is absent |
| `Emitter.SaysAfter` | lib/AsyncEventEmitter.js:135 | `beforeOrAfter === 'after'` selects `after` |
| `JsValues.Truthy` | lib/AsyncEventEmitter.js:25 | JavaScript truthiness, as `!callback` tests it |
| `Emitter.AsyncEventEmitter.constructor` | lib/AsyncEventEmitter.js:10-12 | a new emitter has an empty, valid store |
| `Emitter.AsyncEventEmitter.On` | lib/AsyncEventEmitter.js:71 | the base emitter's `on` appends the listener |
| `Emitter.AsyncEventEmitter.RemoveListener` | lib/AsyncEventEmitter.js:66 | the base emitter's `removeListener` removes the last occurrence of that exact listener |
| `Emitter.AsyncEventEmitter.ArrayFor` | lib/AsyncEventEmitter.js:85-88 | returns the event's listeners as an array and writes a lone function back as a one-element array |
| `Emitter.AsyncEventEmitter.First` | lib/AsyncEventEmitter.js:77-93 | a non-function listener throws with the store unchanged; otherwise the entry becomes `[x] + s` when it exists, and nothing changes when it does not |
| `Emitter.AsyncEventEmitter.At` | lib/AsyncEventEmitter.js:96-115 | the listener check comes first, then a non-number or negative index throws; both leave the store unchanged; otherwise the store is spliced at the index |
| `Emitter.AsyncEventEmitter.Before` | lib/AsyncEventEmitter.js:118-120 | the store is spliced at the last occurrence of the target |
| `Emitter.AsyncEventEmitter.After` | lib/AsyncEventEmitter.js:123-125 | the store is spliced one past the last occurrence of the target |
| `Emitter.AsyncEventEmitter.BeforeOrAfter` | lib/AsyncEventEmitter.js:131-162 | a non-function listener, then a non-function target, throws with the store unchanged; otherwise the store is spliced at the anchor, with one added exactly when the flag is the string "after" |
| `Emitter.AsyncEventEmitter.Once` | lib/AsyncEventEmitter.js:57-74 | a non-function listener throws with the store unchanged; otherwise one adapter tagged with the listener is appended to the event, and no event held that adapter before |
| `Emitter.AsyncEventEmitter.Invoke` | lib/AsyncEventEmitter.js:65-68 | invoking an adapter removes it from its event, then invokes the wrapped function |
| `Emitter.AsyncEventEmitter.EachSeriesRun` | lib/AsyncEventEmitter.js:43-46 | the loop over the listeners invokes them in order until one reports a truthy error; the count and error equal `EachSeries`, and the store afterwards is the old one with each invoked adapter removed |
| `Emitter.AsyncEventEmitter.Emit` | lib/AsyncEventEmitter.js:20-49 | the listeners stored when `emit` starts run in stored order with the rewritten payload, as `EachSeries` says; a truthy callback is called once with the run's error or with none; the store afterwards is the old one with each invoked adapter removed |

## Left out

- Node's `EventEmitter` is foreign code. `on` is modelled as an append. `removeListener` is modelled as removing the last occurrence of the exact listener value, with an array that drops to one listener made bare again. It does not match against the `.listener` tag of a `once` adapter. The `newListener`/`removeListener` notifications it fires are not modelled.
- The `async` library is modelled only by the contract of `eachSeries`: listeners run in order, and the first truthy error stops the run and goes to the final callback. A falsy callback is replaced by a no-op. The model does not capture that a truthy callback which is not a function would throw when called.
- Real asynchrony, callback timing and the `this` binding of `fn.call(self, …)` are not modelled. A listener that never calls `next` stalls the run, and a terminating model cannot express that.
- `Emit` walks the array it read at the start. While a run is in flight, a `once` adapter's removal changes the store but not that array. The source passes the stored array itself to `eachSeries`, so whether an in-place removal there skips a later listener depends on Node's removal, which is not part of this model.
- A plain listener is modelled only by the value it passes to `next`. A listener that changes the emitter while the run is in flight (calls `first`, `at` or `removeListener`), throws out of `fn.call`, or calls `next` twice is not modelled. `Emit`'s statement that the store afterwards is the old one with each invoked adapter removed holds only under that restriction.
- Numbers are integers. Non-integer indices and `NaN` pass the index check of `at` and are then coerced by `splice`; this is not modelled.
- Event names are strings; symbols are not modelled.
- The `this` return value used for chaining, `util.inherits`, `require` and `module.exports` are not modelled.
