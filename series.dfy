/** What `emit` computes without touching the store: how it rewrites its
    arguments, and the sequential stop-on-first-error run of `eachSeries`. */
module Series {
  import opened JsValues

  /** The payload handed to every listener and the callback forwarded to the
      run as its final callback. */
  datatype EmitArgs = EmitArgs(payload: Value, callback: Value)

  /** `emit(event, data, callback)`'s rewriting of its arguments: a function
      given as `data` with no callback becomes the callback; for the two
      meta-events the payload becomes `{event: data, fn: callback}` (taken
      after that shift) and no callback is forwarded. */
  function EmitArguments(event: Event, data: Value, callback: Value): (r: EmitArgs)
    ensures IsMetaEvent(event) ==> r.callback == Undefined && r.payload.MetaRecord?
    ensures !IsMetaEvent(event) && Truthy(callback) ==> r == EmitArgs(data, callback)
  {
    var shifted := if !Truthy(callback) && data.Func? then EmitArgs(Undefined, data) else EmitArgs(data, callback);
    if IsMetaEvent(event) then EmitArgs(MetaRecord(shifted.payload, shifted.callback), Undefined)
    else shifted
  }

  /** With no callback, a function passed as `data` is the callback and the
      payload is undefined; any other `data` is the payload. */
  lemma FunctionDataIsCallback(event: Event, data: Value, callback: Value)
    requires !Truthy(callback) && !IsMetaEvent(event)
    ensures data.Func? ==> EmitArguments(event, data, callback) == EmitArgs(Undefined, data)
    ensures !data.Func? ==> EmitArguments(event, data, callback) == EmitArgs(data, callback)
  {
  }

  /** For a meta-event the listeners receive `{event, fn}` built from the
      shifted arguments and never a callback. */
  lemma MetaEventPayload(event: Event, data: Value, callback: Value)
    requires IsMetaEvent(event)
    ensures Truthy(callback) ==> EmitArguments(event, data, callback) == EmitArgs(MetaRecord(data, callback), Undefined)
    ensures !Truthy(callback) && data.Func? ==>
      EmitArguments(event, data, callback) == EmitArgs(MetaRecord(Undefined, data), Undefined)
    ensures !Truthy(callback) && !data.Func? ==>
      EmitArguments(event, data, callback) == EmitArgs(MetaRecord(data, callback), Undefined)
  {
  }

  /** Outside the meta-events the rewriting is idempotent: rewritten
      arguments are already in normal form. */
  lemma EmitArgumentsIdempotent(event: Event, data: Value, callback: Value)
    requires !IsMetaEvent(event)
    ensures var r := EmitArguments(event, data, callback);
      EmitArguments(event, r.payload, r.callback) == r
  {
  }

  /** The outcome of a sequential run: how many listeners were invoked and the
      error the final callback receives (`None`: called with no error). */
  datatype Run = Run(invoked: nat, error: Option<Value>)

  /** `async.eachSeries` over `n` listeners from position `k` on. Listener `j`
      passes `reports(j)` to its `next`; a truthy value stops the run and is
      handed to the final callback, otherwise listener `j + 1` starts. */
  function RunFrom(reports: nat -> Value, k: nat, n: nat): (r: Run)
    requires k <= n
    decreases n - k
    ensures k <= r.invoked <= n
    ensures r.error.None? ==> r.invoked == n
    ensures r.error.Some? ==> k < r.invoked && Truthy(reports(r.invoked - 1)) && r.error.value == reports(r.invoked - 1)
    ensures forall j :: k <= j < r.invoked && (r.error.None? || j < r.invoked - 1) ==> !Truthy(reports(j))
  {
    if k == n then Run(n, None)
    else if Truthy(reports(k)) then Run(k + 1, Some(reports(k)))
    else RunFrom(reports, k + 1, n)
  }

  /** The whole run over `n` listeners: it ends with no error exactly when no
      listener reports one. */
  function EachSeries(reports: nat -> Value, n: nat): (r: Run)
    ensures r.invoked <= n
    ensures r.error.None? <==> forall j :: 0 <= j < n ==> !Truthy(reports(j))
  {
    RunFrom(reports, 0, n)
  }

  /** When every listener succeeds, all `n` run and the final callback gets
      no error; this includes `n == 0`. */
  lemma AllSucceed(reports: nat -> Value, n: nat)
    requires forall j :: 0 <= j < n ==> !Truthy(reports(j))
    ensures EachSeries(reports, n) == Run(n, None)
  {
  }

  /** When listener `k` is the first to report an error, listeners `0..k`
      run, none after it, and the final callback receives that error. */
  lemma StopsAtFirstError(reports: nat -> Value, n: nat, k: nat)
    requires k < n && Truthy(reports(k))
    requires forall j :: 0 <= j < k ==> !Truthy(reports(j))
    ensures EachSeries(reports, n) == Run(k + 1, Some(reports(k)))
  {
  }

  /** The run depends only on the reports of the listeners it invokes: the
      reports of listeners after the one that stops it make no difference. */
  lemma {:induction false} RunIgnoresLaterReports(reports: nat -> Value, other: nat -> Value, k: nat, n: nat)
    requires k <= n
    requires forall j :: k <= j < RunFrom(reports, k, n).invoked ==> reports(j) == other(j)
    ensures RunFrom(reports, k, n) == RunFrom(other, k, n)
    decreases n - k
  {
    if k < n {
      assert reports(k) == other(k);
      if !Truthy(reports(k)) {
        RunIgnoresLaterReports(reports, other, k + 1, n);
      }
    }
  }
}
