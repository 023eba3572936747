/** The per-event listener store (`_events`) and the positional operations the
    emitter performs on it, as functions on values. The emitter's methods are
    proved to change the store exactly as these functions say. */
module ListenerStore {
  import opened JsValues

  /** One event's entry: the base emitter keeps a lone listener as a bare
      function and two or more as an array. */
  datatype Entry = Single(fn: Listener) | Many(fns: seq<Listener>)

  type Store = map<Event, Entry>

  /** The entry read as an array (`Array.isArray(l) ? l : [l]`). */
  function AsArray(entry: Entry): seq<Listener> {
    match entry
    case Single(f) => [f]
    case Many(fs) => fs
  }

  /** The listeners of `event` in dispatch order (`this._events[event] || []`). */
  function ListenersOf(store: Store, event: Event): seq<Listener> {
    if event in store then AsArray(store[event]) else []
  }

  /** `s.splice(index, 0, x)` on a copy: an index past the end is clamped to
      the end. */
  function Insert(s: seq<Listener>, index: nat, x: Listener): (r: seq<Listener>)
    ensures |r| == |s| + 1
    ensures var p := if index < |s| then index else |s|;
      && r[p] == x
      && (forall k :: 0 <= k < p ==> r[k] == s[k])
      && (forall k :: p < k < |r| ==> r[k] == s[k - 1])
  {
    var p := if index < |s| then index else |s|;
    assert s == s[..p] + s[p..];
    s[..p] + [x] + s[p..]
  }

  /** An insertion adds `x` and loses nothing. */
  lemma InsertAddsOne(s: seq<Listener>, index: nat, x: Listener)
    ensures multiset(Insert(s, index, x)) == multiset(s) + multiset{x}
  {
    var p := if index < |s| then index else |s|;
    assert s == s[..p] + s[p..];
  }

  /** The write-back of the ordering operations: a bare function is replaced
      by a one-element array; an array or a missing entry is left as it is. */
  function Normalized(store: Store, event: Event): (r: Store)
    ensures r.Keys == store.Keys
    ensures forall e :: e in store && e != event ==> r[e] == store[e]
    ensures event in store ==> r[event].Many?
  {
    if event in store && store[event].Single? then store[event := Many([store[event].fn])] else store
  }

  /** The store after an ordering operation has normalised `event`'s entry and
      spliced `x` in at `index`. When `event` has no entry the splice goes into
      a throw-away array and the store is left as it was. */
  function Spliced(store: Store, event: Event, index: nat, x: Listener): (r: Store)
    ensures r.Keys == store.Keys
    ensures event in store ==> r[event].Many? && |r[event].fns| == |ListenersOf(store, event)| + 1
  {
    var normal := Normalized(store, event);
    if event in normal then normal[event := Many(Insert(AsArray(normal[event]), index, x))] else normal
  }

  /** Position of the last occurrence of `t` in `s`, scanning from the end. */
  function LastIndex(s: seq<Listener>, t: Listener): (r: Option<nat>)
    ensures r.Some? ==> r.value < |s| && s[r.value] == t
    ensures r.Some? ==> forall j :: r.value < j < |s| ==> s[j] != t
    ensures r.None? <==> t !in s
  {
    if |s| == 0 then None
    else if s[|s| - 1] == t then Some(|s| - 1)
    else
      var r := LastIndex(s[..|s| - 1], t);
      assert s == s[..|s| - 1] + [s[|s| - 1]];
      r
  }

  /** Where `before` (`after` false) or `after` (`after` true) inserts: at, or
      one past, the last occurrence of `target`, else at the end. */
  function Anchor(s: seq<Listener>, target: Listener, after: bool): (index: nat)
    ensures index <= |s|
  {
    match LastIndex(s, target)
    case Some(i) => if after then i + 1 else i
    case None => |s|
  }

  /** The base emitter's `on`: append, turning a lone function into an array
      of two. */
  function Appended(store: Store, event: Event, l: Listener): (r: Store)
    ensures ListenersOf(r, event) == ListenersOf(store, event) + [l]
    ensures forall e :: e != event ==> ListenersOf(r, e) == ListenersOf(store, e)
  {
    if event in store then store[event := Many(AsArray(store[event]) + [l])]
    else store[event := Single(l)]
  }

  /** Taking out position `i` loses exactly the listener there. */
  lemma DropOne(s: seq<Listener>, i: nat)
    requires i < |s|
    ensures multiset(s[..i] + s[i + 1..]) + multiset{s[i]} == multiset(s)
  {
    assert s == s[..i] + [s[i]] + s[i + 1..];
  }

  /** The base emitter's `removeListener` for an exact listener value: the last
      occurrence goes; an array left with one listener becomes a bare function
      and an entry left with none is deleted. */
  function Removed(store: Store, event: Event, l: Listener): (r: Store)
    ensures l !in ListenersOf(store, event) ==> r == store
    ensures l in ListenersOf(store, event) ==>
      var s := ListenersOf(store, event);
      var i := LastIndex(s, l).value;
      ListenersOf(r, event) == s[..i] + s[i + 1..]
    ensures l in ListenersOf(store, event) ==>
      multiset(ListenersOf(r, event)) + multiset{l} == multiset(ListenersOf(store, event))
    ensures forall e :: e != event ==> ListenersOf(r, e) == ListenersOf(store, e)
    ensures forall e :: multiset(ListenersOf(r, e)) <= multiset(ListenersOf(store, e))
  {
    var r := (
      if event !in store then store
      else match store[event]
        case Single(f) => if f == l then store - {event} else store
        case Many(fs) =>
          match LastIndex(fs, l)
          case None => store
          case Some(i) =>
            var rest := fs[..i] + fs[i + 1..];
            DropOne(fs, i);
            if |rest| == 0 then store - {event}
            else if |rest| == 1 then assert rest == [rest[0]]; store[event := Single(rest[0])]
            else store[event := Many(rest)]);
    DropsAtMostOne(store, r, event, l);
    r
  }

  /** A store that differs from `store` only by one fewer `l` at `event`
      holds no listener `store` does not. */
  lemma DropsAtMostOne(store: Store, r: Store, event: Event, l: Listener)
    requires r == store ||
      multiset(ListenersOf(r, event)) + multiset{l} == multiset(ListenersOf(store, event))
    requires forall e :: e != event ==> ListenersOf(r, e) == ListenersOf(store, e)
    ensures forall e :: multiset(ListenersOf(r, e)) <= multiset(ListenersOf(store, e))
  {
  }

  /** The store after one listener has been invoked: each `once` adapter in the
      call chain removes itself from the event it captured before calling the
      function it wraps. Invoking never adds a listener. */
  function Invoked(store: Store, l: Listener): (r: Store)
    ensures forall e :: |ListenersOf(r, e)| <= |ListenersOf(store, e)|
    ensures forall e :: multiset(ListenersOf(r, e)) <= multiset(ListenersOf(store, e))
  {
    match l
    case Plain(_) => store
    case Adapter(_, event, original) => Invoked(Removed(store, event, l), original)
  }

  /** The store after the listeners `ls` have been invoked in order; no
      listener is added on the way. */
  function InvokedAll(store: Store, ls: seq<Listener>): (r: Store)
    ensures forall e :: |ListenersOf(r, e)| <= |ListenersOf(store, e)|
    ensures forall e :: multiset(ListenersOf(r, e)) <= multiset(ListenersOf(store, e))
  {
    if ls == [] then store else Invoked(InvokedAll(store, ls[..|ls| - 1]), ls[|ls| - 1])
  }

  /** Normalising rewrites only the representation: every event keeps its
      listeners, and only `event` may change. */
  lemma NormalizedKeepsListeners(store: Store, event: Event)
    ensures forall e :: ListenersOf(Normalized(store, event), e) == ListenersOf(store, e)
    ensures Normalized(store, event).Keys == store.Keys
    ensures event in store ==> Normalized(store, event)[event].Many?
  {
  }

  /** A splice on an event that has an entry inserts `x` into that event's
      listeners and touches no other event; without an entry nothing changes. */
  lemma SplicedEffect(store: Store, event: Event, index: nat, x: Listener)
    ensures event in store ==>
      ListenersOf(Spliced(store, event, index, x), event) == Insert(ListenersOf(store, event), index, x)
    ensures event !in store ==> Spliced(store, event, index, x) == store
    ensures Spliced(store, event, index, x).Keys == store.Keys
    ensures forall e :: e != event ==> ListenersOf(Spliced(store, event, index, x), e) == ListenersOf(store, e)
  {
    var r := Spliced(store, event, index, x);
    if event in store {
      var normal := Normalized(store, event);
      NormalizedKeepsListeners(store, event);
      assert r == normal[event := Many(Insert(ListenersOf(store, event), index, x))];
      forall e | e != event ensures ListenersOf(r, e) == ListenersOf(store, e) {
        assert ListenersOf(r, e) == ListenersOf(normal, e);
      }
    }
  }

  /** A lone listener `a` is kept: the entry becomes an array of two, with `x`
      first when inserted at 0 and second otherwise. */
  lemma SplicedSingle(store: Store, event: Event, index: nat, a: Listener, x: Listener)
    requires event in store && store[event] == Single(a)
    ensures Spliced(store, event, index, x)[event] == Many(if index == 0 then [x, a] else [a, x])
  {
    var r := Insert([a], index, x);
    if index == 0 {
      assert r == [x, a];
    } else {
      assert r == [a, x];
    }
  }

  /** Inserting at 0 prepends; inserting at or past the end appends. */
  lemma {:induction false} InsertEnds(s: seq<Listener>, index: nat, x: Listener)
    ensures Insert(s, 0, x) == [x] + s
    ensures index >= |s| ==> Insert(s, index, x) == s + [x]
  {
    var r := Insert(s, 0, x);
    assert forall k :: 0 <= k < |r| ==> r[k] == ([x] + s)[k];
    if index >= |s| {
      var q := Insert(s, index, x);
      assert forall k :: 0 <= k < |q| ==> q[k] == (s + [x])[k];
    }
  }

  /** Inserting at a position `p` within bounds leaves the first `p` listeners
      in place and shifts the rest right by one, in the same order. */
  lemma {:induction false} InsertSplits(s: seq<Listener>, p: nat, x: Listener)
    requires p <= |s|
    ensures Insert(s, p, x) == s[..p] + [x] + s[p..]
  {
    var r := Insert(s, p, x);
    var t := s[..p] + [x] + s[p..];
    assert |r| == |t|;
    forall k | 0 <= k < |r| ensures r[k] == t[k] {
      if k < p {
      } else if k == p {
      } else {
        assert t[k] == s[p..][k - p - 1];
      }
    }
  }

  /** `before` lands at the last occurrence `i` of the target and `after`
      one past it. */
  lemma {:induction false} AnchorAtLastOccurrence(s: seq<Listener>, t: Listener, x: Listener, i: nat)
    requires i < |s| && s[i] == t
    requires forall j :: i < j < |s| ==> s[j] != t
    ensures Anchor(s, t, false) == i && Anchor(s, t, true) == i + 1
    ensures Insert(s, Anchor(s, t, false), x) == s[..i] + [x] + s[i..]
    ensures Insert(s, Anchor(s, t, true), x) == s[..i + 1] + [x] + s[i + 1..]
  {
    assert t in s;
    var r := LastIndex(s, t);
    assert r.Some?;
    InsertSplits(s, i, x);
    InsertSplits(s, i + 1, x);
  }

  /** A target that is not registered makes `before` and `after` append. */
  lemma MissingTargetAppends(s: seq<Listener>, t: Listener, x: Listener, after: bool)
    requires t !in s
    ensures Insert(s, Anchor(s, t, after), x) == s + [x]
  {
    InsertEnds(s, |s|, x);
  }

  /** A `once` adapter `w` for event `event`, wrapping a plain function and
      appended by `on`, removes itself when invoked: every event's listeners
      are then as they were before the registration. */
  lemma {:induction false} OnceAdapterRemovesItself(store: Store, event: Event, w: Listener)
    requires w.Adapter? && w.event == event && w.original.Plain?
    ensures forall e :: ListenersOf(Invoked(Appended(store, event, w), w), e) == ListenersOf(store, e)
  {
    var after := Appended(store, event, w);
    assert Invoked(after, w) == Removed(after, event, w);
    var fs := AsArray(after[event]);
    var before := ListenersOf(store, event);
    assert fs == before + [w];
    if event in store {
      assert after[event].Many?;
      assert LastIndex(fs, w) == Some(|before|);
      assert fs[..|before|] + fs[|before| + 1..] == before;
    }
  }

  /** Wherever it stands, an adapter wrapping a plain function removes its
      own last occurrence from the event it captured when invoked; the
      listeners before and after it keep their order and no other event
      changes. */
  lemma InvokedRemovesAdapter(store: Store, w: Listener, i: nat)
    requires w.Adapter? && w.original.Plain?
    requires i < |ListenersOf(store, w.event)| && ListenersOf(store, w.event)[i] == w
    requires forall j :: i < j < |ListenersOf(store, w.event)| ==> ListenersOf(store, w.event)[j] != w
    ensures var s := ListenersOf(store, w.event);
      ListenersOf(Invoked(store, w), w.event) == s[..i] + s[i + 1..]
    ensures forall e :: e != w.event ==> ListenersOf(Invoked(store, w), e) == ListenersOf(store, e)
  {
    var s := ListenersOf(store, w.event);
    assert w in s;
    assert LastIndex(s, w) == Some(i);
    assert Invoked(store, w) == Removed(store, w.event, w);
  }

  /** An adapter registered at most once for its event is gone from it once
      a run has invoked it: it removed its one occurrence, and neither it nor
      any later invocation adds a listener. */
  lemma {:induction false} InvokedAdapterIsGone(store: Store, ls: seq<Listener>, w: Listener)
    requires w.Adapter? && w in ls
    requires multiset(ListenersOf(store, w.event))[w] <= 1
    ensures w !in ListenersOf(InvokedAll(store, ls), w.event)
    decreases |ls|
  {
    var init, last := ls[..|ls| - 1], ls[|ls| - 1];
    assert ls == init + [last];
    var mid := InvokedAll(store, init);
    var r := InvokedAll(store, ls);
    assert r == Invoked(mid, last);
    if w in init {
      InvokedAdapterIsGone(store, init, w);
      assert multiset(ListenersOf(r, w.event))[w] <= multiset(ListenersOf(mid, w.event))[w];
    } else {
      assert last == w;
      var removed := Removed(mid, w.event, w);
      assert r == Invoked(removed, w.original);
      assert multiset(ListenersOf(r, w.event))[w] <= multiset(ListenersOf(removed, w.event))[w];
      assert multiset(ListenersOf(mid, w.event))[w] <= multiset(ListenersOf(store, w.event))[w];
    }
  }

  /** The base emitter's representation: a lone listener is kept bare, so an
      array holds two listeners or more. */
  predicate Compact(store: Store) {
    forall e :: e in store && store[e].Many? ==> |store[e].fns| >= 2
  }

  /** Every stored adapter already exists when `bound` adapters have been
      created. */
  ghost predicate AllBorn(store: Store, bound: nat) {
    forall e, l :: l in ListenersOf(store, e) ==> Born(l, bound)
  }

  /** The store as the emitter keeps it: compact, and holding only adapters
      that exist. */
  ghost predicate WellFormed(store: Store, bound: nat) {
    Compact(store) && AllBorn(store, bound)
  }

  /** Creating another adapter keeps the store well-formed. */
  lemma WellFormedGrows(store: Store, bound: nat, later: nat)
    requires WellFormed(store, bound) && bound <= later
    ensures WellFormed(store, later)
  {
    forall e, l | l in ListenersOf(store, e) ensures Born(l, later) {
      BornGrows(l, bound, later);
    }
  }

  /** An adapter that is not yet created is in no event's listeners. */
  lemma UnbornIsAbsent(store: Store, bound: nat, l: Listener)
    requires AllBorn(store, bound) && l.Adapter? && l.wrapper >= bound
    ensures forall e :: l !in ListenersOf(store, e)
  {
    assert !Born(l, bound);
  }

  /** Every splice of an existing listener keeps the store well-formed: it
      only ever turns a bare function into an array of two or lengthens an
      array. */
  lemma SplicedKeepsWellFormed(store: Store, event: Event, index: nat, x: Listener, bound: nat)
    requires WellFormed(store, bound) && Born(x, bound)
    ensures WellFormed(Spliced(store, event, index, x), bound)
  {
    var r := Spliced(store, event, index, x);
    SplicedEffect(store, event, index, x);
    if event in store {
      InsertAddsOne(ListenersOf(store, event), index, x);
      forall l | l in ListenersOf(r, event) ensures Born(l, bound) {
        assert l in multiset(ListenersOf(r, event));
      }
    }
  }

  /** `on` with an existing listener keeps the store well-formed. */
  lemma AppendedKeepsWellFormed(store: Store, event: Event, l: Listener, bound: nat)
    requires WellFormed(store, bound) && Born(l, bound)
    ensures WellFormed(Appended(store, event, l), bound)
  {
  }

  /** `removeListener` keeps the store well-formed. */
  lemma RemovedKeepsWellFormed(store: Store, event: Event, l: Listener, bound: nat)
    requires WellFormed(store, bound)
    ensures WellFormed(Removed(store, event, l), bound)
  {
    var r := Removed(store, event, l);
    var s := ListenersOf(store, event);
    if l in s {
      var i := LastIndex(s, l).value;
      forall m | m in ListenersOf(r, event) ensures m in s {
        assert m in s[..i] || m in s[i + 1..];
      }
    }
  }

  /** Invoking a listener chain keeps the store well-formed. */
  lemma {:induction false} InvokedKeepsWellFormed(store: Store, l: Listener, bound: nat)
    requires WellFormed(store, bound)
    ensures WellFormed(Invoked(store, l), bound)
  {
    match l
    case Plain(_) =>
    case Adapter(_, event, original) =>
      RemovedKeepsWellFormed(store, event, l, bound);
      InvokedKeepsWellFormed(Removed(store, event, l), original, bound);
  }

  /** A whole run of invocations keeps the store well-formed. */
  lemma {:induction false} InvokedAllKeepsWellFormed(store: Store, ls: seq<Listener>, bound: nat)
    requires WellFormed(store, bound)
    ensures WellFormed(InvokedAll(store, ls), bound)
    decreases |ls|
  {
    if ls != [] {
      InvokedAllKeepsWellFormed(store, ls[..|ls| - 1], bound);
      InvokedKeepsWellFormed(InvokedAll(store, ls[..|ls| - 1]), ls[|ls| - 1], bound);
    }
  }

  /** Plain listeners have no adapter to remove: invoking them changes
      nothing. */
  lemma {:induction false} InvokingPlainChangesNothing(store: Store, ls: seq<Listener>)
    requires forall k :: 0 <= k < |ls| ==> ls[k].Plain?
    ensures InvokedAll(store, ls) == store
    decreases |ls|
  {
    if ls != [] {
      InvokingPlainChangesNothing(store, ls[..|ls| - 1]);
    }
  }

  /** Listeners `[a, b, c]`: `before` b gives `[a, x, b, c]`, `after` b
      gives `[a, b, x, c]`, and a target `t` that is not there makes both
      append. */
  lemma BeforeAfterExamples(a: Listener, b: Listener, c: Listener, x: Listener, t: Listener)
    requires a != b && c != b
    requires t != a && t != b && t != c
    ensures Insert([a, b, c], Anchor([a, b, c], b, false), x) == [a, x, b, c]
    ensures Insert([a, b, c], Anchor([a, b, c], b, true), x) == [a, b, x, c]
    ensures Insert([a, b, c], Anchor([a, b, c], t, false), x) == [a, b, c, x]
    ensures Insert([a, b, c], Anchor([a, b, c], t, true), x) == [a, b, c, x]
  {
    var s := [a, b, c];
    assert Anchor(s, b, false) == 1 && Anchor(s, b, true) == 2 by {
      AnchorAtLastOccurrence(s, b, x, 1);
    }
    assert Insert(s, 1, x) == [a, x, b, c] by {
      InsertSplits(s, 1, x);
      assert s[..1] == [a] && s[1..] == [b, c];
    }
    assert Insert(s, 2, x) == [a, b, x, c] by {
      InsertSplits(s, 2, x);
      assert s[..2] == [a, b] && s[2..] == [c];
    }
    assert t !in s;
    MissingTargetAppends(s, t, x, false);
    MissingTargetAppends(s, t, x, true);
  }

  /** Listeners `[a, b, c]`: `at` index 1 gives `[a, x, b, c]`, index 99
      appends. */
  lemma AtExamples(a: Listener, b: Listener, c: Listener, x: Listener)
    ensures Insert([a, b, c], 1, x) == [a, x, b, c]
    ensures Insert([a, b, c], 99, x) == [a, b, c, x]
  {
    var s := [a, b, c];
    assert Insert(s, 1, x) == [a, x, b, c] by {
      InsertSplits(s, 1, x);
      assert s[..1] == [a] && s[1..] == [b, c];
    }
    assert Insert(s, 99, x) == s + [x] by {
      InsertEnds(s, 99, x);
    }
  }
}
