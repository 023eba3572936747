/** JavaScript values as the emitter sees them: listeners with identity, the
    arguments callers pass, and JavaScript truthiness. */
module JsValues {

  datatype Option<+T> = None | Some(value: T)

  /** An event name, the key of the per-event listener store. */
  type Event = string

  const NewListenerEvent: Event := "newListener"
  const RemoveListenerEvent: Event := "removeListener"

  /** The two reserved meta-events that `emit` treats specially. */
  predicate IsMetaEvent(event: Event) {
    event == NewListenerEvent || event == RemoveListenerEvent
  }

  /** A listener function, compared by reference. `Plain(id)` is a function
      the caller wrote; `Adapter(wrapper, event, original)` is the adapter that
      `once` creates: `wrapper` is the identity of the fresh closure, `event`
      the event name it captured and `original` the function it is tagged
      with (its `.listener` property). */
  datatype Listener =
    | Plain(id: nat)
    | Adapter(wrapper: nat, event: Event, original: Listener)

  /** Every adapter within `l` already exists when `bound` adapters have been
      created: a caller can only hold closures that exist. */
  predicate Born(l: Listener, bound: nat) {
    match l
    case Plain(_) => true
    case Adapter(w, _, original) => w < bound && Born(original, bound)
  }

  /** Creating more adapters keeps every existing one existing. */
  lemma {:induction false} BornGrows(l: Listener, bound: nat, later: nat)
    requires Born(l, bound) && bound <= later
    ensures Born(l, later)
  {
    match l
    case Plain(_) =>
    case Adapter(_, _, original) => BornGrows(original, bound, later);
  }

  /** A JavaScript value passed as an argument. Numbers are integers only.
      `MetaRecord` is the `{event, fn}` object that `emit` builds for the
      meta-events. */
  datatype Value =
    | Undefined
    | Null
    | Bool(b: bool)
    | Num(n: int)
    | Str(s: string)
    | Obj(ref: nat)
    | Func(fn: Listener)
    | MetaRecord(event: Value, listener: Value)

  /** JavaScript truthiness: `if (v)` takes the branch exactly when this holds. */
  predicate Truthy(v: Value) {
    match v
    case Undefined => false
    case Null => false
    case Bool(b) => b
    case Num(n) => n != 0
    case Str(s) => s != ""
    case _ => true
  }
}
