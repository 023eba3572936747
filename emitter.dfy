/** The asynchronous event emitter: the listener store as a mutable field,
    the ordering operations that splice it in place, `once`, and `emit`'s
    sequential run. */
module Emitter {
  import opened JsValues
  import opened ListenerStore
  import opened Series

  /** The `TypeError`s the argument checks throw. */
  datatype TypeError =
    | ListenerMustBeFunction
    | IndexMustBeNonNegativeInteger
    | TargetMustBeFunction

  /** What happens to `emit`'s final callback: a falsy callback is replaced by
      a no-op; otherwise it is called once, with the error or with none. */
  datatype Completion = NoCallback | CalledBack(callback: Value, error: Option<Value>)

  /** The payload every invoked listener received, the listeners invoked, in
      order, and the final callback's one call. */
  datatype EmitResult = EmitResult(payload: Value, invoked: seq<Listener>, completion: Completion)

  /** The reverse scan of `_beforeOrAfter`: the index one `splice` uses is
      that of the last occurrence of `target`, plus one for `after`, or the
      length when `target` is not there. */
  method FindAnchor(listeners: seq<Listener>, target: Listener, after: bool) returns (index: nat)
    ensures index <= |listeners|
    ensures target in listeners ==>
      exists i :: (0 <= i < |listeners| && listeners[i] == target &&
        index == (if after then i + 1 else i) &&
        forall j :: i < j < |listeners| ==> listeners[j] != target)
    ensures target !in listeners ==> index == |listeners|
    ensures index == Anchor(listeners, target, after)
  {
    var add := if after then 1 else 0;
    index := |listeners|;
    var i := |listeners|;
    while i > 0
      invariant 0 <= i <= |listeners|
      invariant index == |listeners|
      invariant forall j :: i <= j < |listeners| ==> listeners[j] != target
    {
      i := i - 1;
      if listeners[i] == target {
        index := i + add;
        assert LastIndex(listeners, target) == Some(i);
        break;
      }
    }
  }

  /** `beforeOrAfter === "after"`. */
  predicate SaysAfter(v: Value) {
    v.Str? && v.s == "after"
  }

  /** `once` followed by an `emit` in which no listener reports an error:
      the adapter, appended once to an event that did not hold it, is run,
      and is absent from the event afterwards. */
  lemma OnceFiresOnce(store: Store, event: Event, w: Listener, reports: nat -> Value)
    requires w.Adapter? && w.event == event && w !in ListenersOf(store, event)
    requires forall j :: 0 <= j < |ListenersOf(store, event)| + 1 ==> !Truthy(reports(j))
    ensures var registered := Appended(store, event, w);
      var s := ListenersOf(registered, event);
      var run := EachSeries(reports, |s|);
      && w in s[..run.invoked]
      && w !in ListenersOf(InvokedAll(registered, s[..run.invoked]), event)
  {
    var registered := Appended(store, event, w);
    var s := ListenersOf(registered, event);
    AllSucceed(reports, |s|);
    assert s[..|s|] == s && s[|s| - 1] == w;
    assert multiset(s)[w] == 1;
    InvokedAdapterIsGone(registered, s, w);
  }

  class AsyncEventEmitter {
    /** The base emitter's per-event listener store, `this._events`. */
    var events: Store
    /** How many `once` adapters have been created: each new adapter takes
        this number as its identity, standing for a fresh closure. */
    var minted: nat

    /** The store is compact and holds only adapters that exist. */
    ghost predicate Valid()
      reads this
    {
      WellFormed(events, minted)
    }

    constructor ()
      ensures Valid()
      ensures events == map[] && minted == 0
    {
      events := map[];
      minted := 0;
    }

    /** The base emitter's `on`: appends `l` to `event`'s listeners. */
    method On(event: Event, l: Listener)
      requires Valid() && Born(l, minted)
      modifies this
      ensures Valid()
      ensures events == Appended(old(events), event, l)
      ensures minted == old(minted)
    {
      AppendedKeepsWellFormed(events, event, l, minted);
      if event in events {
        events := events[event := Many(AsArray(events[event]) + [l])];
      } else {
        events := events[event := Single(l)];
      }
    }

    /** The base emitter's `removeListener` for an exact listener value. */
    method RemoveListener(event: Event, l: Listener)
      requires Valid()
      modifies this
      ensures Valid()
      ensures events == Removed(old(events), event, l)
      ensures minted == old(minted)
    {
      RemovedKeepsWellFormed(events, event, l, minted);
      events := Removed(events, event, l);
    }

    /** The normalise-and-write-back step of the ordering operations: the
        listeners of `event` as an array, with a bare function replaced in the
        store by that one-element array. */
    method ArrayFor(event: Event) returns (listeners: seq<Listener>)
      modifies this
      ensures listeners == ListenersOf(old(events), event)
      ensures events == Normalized(old(events), event)
      ensures minted == old(minted)
    {
      listeners := [];
      if event in events {
        match events[event]
        case Single(f) =>
          listeners := [f];
          events := events[event := Many(listeners)];
        case Many(fs) =>
          listeners := fs;
      }
    }

    /** `first(event, listener)`: puts `listener` in front of the stored
        array. */
    method First(event: Event, listener: Value) returns (thrown: Option<TypeError>)
      requires Valid()
      requires listener.Func? ==> Born(listener.fn, minted)
      modifies this
      ensures Valid()
      ensures thrown == (if listener.Func? then None else Some(ListenerMustBeFunction))
      ensures events == (if listener.Func? then Spliced(old(events), event, 0, listener.fn) else old(events))
      ensures listener.Func? && event in old(events) ==>
        ListenersOf(events, event) == [listener.fn] + ListenersOf(old(events), event)
      ensures minted == old(minted)
    {
      var stored := event in events;
      if !listener.Func? {
        return Some(ListenerMustBeFunction);
      }
      ghost var before := events;
      var listeners := ArrayFor(event);
      InsertEnds(listeners, 0, listener.fn);
      listeners := [listener.fn] + listeners;
      if stored {
        events := events[event := Many(listeners)];
      }
      SplicedKeepsWellFormed(before, event, 0, listener.fn, minted);
      thrown := None;
    }

    /** `at(event, index, listener)`: splices `listener` into the stored
        array at `index`, clamped to its length. */
    method At(event: Event, index: Value, listener: Value) returns (thrown: Option<TypeError>)
      requires Valid()
      requires listener.Func? ==> Born(listener.fn, minted)
      modifies this
      ensures Valid()
      ensures thrown ==
        if !listener.Func? then Some(ListenerMustBeFunction)
        else if !index.Num? || index.n < 0 then Some(IndexMustBeNonNegativeInteger)
        else None
      ensures events == (if thrown.None? then Spliced(old(events), event, index.n as nat, listener.fn) else old(events))
      ensures minted == old(minted)
    {
      var stored := event in events;
      if !listener.Func? {
        return Some(ListenerMustBeFunction);
      }
      if !index.Num? || index.n < 0 {
        return Some(IndexMustBeNonNegativeInteger);
      }
      ghost var before := events;
      var listeners := ArrayFor(event);
      listeners := Insert(listeners, index.n as nat, listener.fn);
      if stored {
        events := events[event := Many(listeners)];
      }
      SplicedKeepsWellFormed(before, event, index.n as nat, listener.fn, minted);
      thrown := None;
    }

    /** `before(event, target, listener)`. */
    method Before(event: Event, target: Value, listener: Value) returns (thrown: Option<TypeError>)
      requires Valid()
      requires listener.Func? ==> Born(listener.fn, minted)
      requires target.Func? ==> Born(target.fn, minted)
      modifies this
      ensures Valid()
      ensures thrown ==
        if !listener.Func? then Some(ListenerMustBeFunction)
        else if !target.Func? then Some(TargetMustBeFunction)
        else None
      ensures events == (if thrown.None?
        then Spliced(old(events), event, Anchor(ListenersOf(old(events), event), target.fn, false), listener.fn)
        else old(events))
      ensures minted == old(minted)
    {
      thrown := BeforeOrAfter(event, target, listener, Undefined);
    }

    /** `after(event, target, listener)`. */
    method After(event: Event, target: Value, listener: Value) returns (thrown: Option<TypeError>)
      requires Valid()
      requires listener.Func? ==> Born(listener.fn, minted)
      requires target.Func? ==> Born(target.fn, minted)
      modifies this
      ensures Valid()
      ensures thrown ==
        if !listener.Func? then Some(ListenerMustBeFunction)
        else if !target.Func? then Some(TargetMustBeFunction)
        else None
      ensures events == (if thrown.None?
        then Spliced(old(events), event, Anchor(ListenersOf(old(events), event), target.fn, true), listener.fn)
        else old(events))
      ensures minted == old(minted)
    {
      thrown := BeforeOrAfter(event, target, listener, Str("after"));
    }

    /** `_beforeOrAfter`: inserts at the last occurrence of `target`, one
        further on when `beforeOrAfter` is the string "after". */
    method BeforeOrAfter(event: Event, target: Value, listener: Value, beforeOrAfter: Value)
      returns (thrown: Option<TypeError>)
      requires Valid()
      requires listener.Func? ==> Born(listener.fn, minted)
      requires target.Func? ==> Born(target.fn, minted)
      modifies this
      ensures Valid()
      ensures thrown ==
        if !listener.Func? then Some(ListenerMustBeFunction)
        else if !target.Func? then Some(TargetMustBeFunction)
        else None
      ensures events == (if thrown.None?
        then Spliced(old(events), event,
          Anchor(ListenersOf(old(events), event), target.fn, SaysAfter(beforeOrAfter)), listener.fn)
        else old(events))
      ensures minted == old(minted)
    {
      var stored := event in events;
      var after := SaysAfter(beforeOrAfter);
      if !listener.Func? {
        return Some(ListenerMustBeFunction);
      }
      if !target.Func? {
        return Some(TargetMustBeFunction);
      }
      ghost var before := events;
      var listeners := ArrayFor(event);
      var index := FindAnchor(listeners, target.fn, after);
      listeners := Insert(listeners, index, listener.fn);
      if stored {
        events := events[event := Many(listeners)];
      }
      assert events == Spliced(before, event, index, listener.fn);
      SplicedKeepsWellFormed(before, event, index, listener.fn, minted);
      thrown := None;
    }

    /** `once(event, listener)`: registers a fresh adapter tagged with
        `listener`. */
    method Once(event: Event, listener: Value) returns (thrown: Option<TypeError>)
      requires Valid()
      requires listener.Func? ==> Born(listener.fn, minted)
      modifies this
      ensures Valid()
      ensures !listener.Func? ==> thrown == Some(ListenerMustBeFunction) && events == old(events) && minted == old(minted)
      ensures listener.Func? ==>
        (thrown == None && minted == old(minted) + 1 &&
         events == Appended(old(events), event, Adapter(old(minted), event, listener.fn)))
      ensures listener.Func? ==>
        ListenersOf(events, event) == ListenersOf(old(events), event) + [Adapter(old(minted), event, listener.fn)]
      ensures listener.Func? ==>
        forall e :: Adapter(old(minted), event, listener.fn) !in ListenersOf(old(events), e)
    {
      if !listener.Func? {
        return Some(ListenerMustBeFunction);
      }
      var g := Adapter(minted, event, listener.fn);
      UnbornIsAbsent(events, minted, g);
      WellFormedGrows(events, minted, minted + 1);
      BornGrows(listener.fn, minted, minted + 1);
      minted := minted + 1;
      On(event, g);
      thrown := None;
    }

    /** Invokes one listener: a `once` adapter removes itself from the event
        it captured and then calls the function it wraps. */
    method Invoke(l: Listener)
      requires Valid()
      modifies this
      ensures Valid()
      ensures events == Invoked(old(events), l)
      ensures minted == old(minted)
      decreases l
    {
      if l.Adapter? {
        RemoveListener(l.event, l);
        Invoke(l.original);
      }
    }

    /** `async.eachSeries(listeners, …, callback)`: invokes the listeners
        one after another until one passes a truthy error to `next`. Returns
        how many were invoked and the error the final callback gets. */
    method EachSeriesRun(listeners: seq<Listener>, reports: nat -> Value) returns (invoked: nat, error: Option<Value>)
      requires Valid()
      modifies this
      ensures Valid()
      ensures Run(invoked, error) == EachSeries(reports, |listeners|)
      ensures events == InvokedAll(old(events), listeners[..invoked])
      ensures minted == old(minted)
    {
      invoked := 0;
      error := None;
      while invoked < |listeners| && error.None?
        invariant invoked <= |listeners|
        invariant RunFrom(reports, 0, |listeners|) ==
          (if error.None? then RunFrom(reports, invoked, |listeners|) else Run(invoked, error))
        invariant events == InvokedAll(old(events), listeners[..invoked])
        invariant minted == old(minted)
        invariant Valid()
      {
        Invoke(listeners[invoked]);
        var err := reports(invoked);
        if Truthy(err) {
          error := Some(err);
        }
        invoked := invoked + 1;
        assert listeners[..invoked][..invoked - 1] == listeners[..invoked - 1];
      }
    }

    /** `emit(event, data, callback)`. Listener `k` of the run passes
        `reports(k)` to its `next`. The listeners run are those stored for
        `event` when `emit` starts. */
    method Emit(event: Event, data: Value, callback: Value, reports: nat -> Value) returns (r: EmitResult)
      requires Valid()
      modifies this
      ensures Valid()
      ensures var snapshot := ListenersOf(old(events), event);
        var args := EmitArguments(event, data, callback);
        var run := EachSeries(reports, |snapshot|);
        && r.payload == args.payload
        && r.invoked == snapshot[..run.invoked]
        && r.completion == (if Truthy(args.callback) then CalledBack(args.callback, run.error) else NoCallback)
      ensures events == InvokedAll(old(events), r.invoked)
      ensures minted == old(minted)
    {
      var entry := if event in events then Some(events[event]) else None;
      var payload, cb := data, callback;
      if !Truthy(cb) && payload.Func? {
        cb := payload;
        payload := Undefined;
      }
      if IsMetaEvent(event) {
        payload := MetaRecord(payload, cb);
        cb := Undefined;
      }
      var listeners := if entry.Some? then AsArray(entry.value) else [];
      var invoked, error := EachSeriesRun(listeners, reports);
      r := EmitResult(payload, listeners[..invoked], if Truthy(cb) then CalledBack(cb, error) else NoCallback);
    }
  }
}
