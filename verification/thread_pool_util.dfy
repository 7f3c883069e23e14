/** Fan-out / fan-in over a worker pool, single-threaded.

    Running a callable is abstracted to its `Call` outcome, and waiting on its
    future to a `Got` value: what `Future.get()` returned or raised for the
    waiting thread (an interrupt of the waiter shows up here as a raised
    `InterruptedException`). The completion order seen by a completion service
    is an explicit input. */
module ThreadPoolUtil {
  import opened Wrappers
  import opened Throwables
  import opened CallResult

  /** What running one callable does. */
  datatype Call<R> = Returns(value: Option<R>) | Throws(error: Throwable)

  /** What one wait on a future does: a value, or a raised exception. */
  datatype Got<R> = Value(value: Option<R>) | Raised(error: Throwable)

  /** `FutureTask.get()` after the task ran uninterrupted: a callable's
      throwable comes back wrapped in an `ExecutionException`. */
  function FutureGet<R>(c: Call<R>): Got<R> {
    match c
    case Returns(v) => Value(v)
    case Throws(e) => Raised(Throwable(ExecutionException, e.message, Some(e)))
  }

  /** One uninterrupted wait per callable, in submission order. */
  function FutureGets<R>(calls: seq<Call<R>>): (gets: seq<Got<R>>)
    ensures |gets| == |calls|
    ensures forall i :: 0 <= i < |calls| ==> gets[i] == FutureGet(calls[i])
  {
    seq(|calls|, i requires 0 <= i < |calls| => FutureGet(calls[i]))
  }

  // ---------------------------------------------------------------------------
  // executeInThreadPool

  /** A wait whose throwable gets past the `catch (Exception e)` clause: only
      an `Error` does. */
  predicate Escapes<R>(g: Got<R>) {
    g.Raised? && !IsException(g.error.cls)
  }

  /** The catch chain around one `future.get()`: an interrupt is recorded as
      itself, an `ExecutionException` as its cause, any other `Exception` as
      itself. */
  function Record<R>(g: Got<R>): CallResult<R>
    requires !Escapes(g)
  {
    match g
    case Value(v) => NewSuccessResult(v)
    case Raised(e) =>
      if e.cls == InterruptedException then NewFailResult(Some(e))
      else if e.cls == ExecutionException then NewFailResult(e.cause)
      else NewFailResult(Some(e))
  }

  /** What `executeInThreadPool` returns for the given waits: the outcome
      list, or the `Error` of the first wait that raised one, which leaves the
      method uncaught. */
  function Outcomes<R>(gets: seq<Got<R>>): (r: Result<seq<CallResult<R>>, Throwable>)
    ensures r.Ok? <==> forall i :: 0 <= i < |gets| ==> !Escapes(gets[i])
    ensures r.Ok? ==> |r.value| == |gets|
    ensures r.Ok? ==> forall i :: 0 <= i < |gets| ==> r.value[i] == Record(gets[i])
    ensures r.Err? ==> exists k :: 0 <= k < |gets| && Escapes(gets[k])
                        && (forall j :: 0 <= j < k ==> !Escapes(gets[j]))
                        && r.error == gets[k].error
    ensures r.Err? ==> !IsException(r.error.cls)
  {
    if |gets| == 0 then Ok([])
    else if Escapes(gets[0]) then Err(gets[0].error)
    else match Outcomes(gets[1..])
      case Err(e) => Err(e)
      case Ok(rest) => Ok([Record(gets[0])] + rest)
  }

  /** Waits on every future in submission order and records each outcome;
      only an `Error` from a wait leaves the loop, ending it there. */
  method ExecuteInThreadPool<R>(gets: seq<Got<R>>) returns (r: Result<seq<CallResult<R>>, Throwable>)
    ensures r.Ok? <==> forall i :: 0 <= i < |gets| ==> !Escapes(gets[i])
    ensures r.Ok? ==> |r.value| == |gets| && forall i :: 0 <= i < |gets| ==> r.value[i] == Record(gets[i])
    ensures r.Err? ==> exists k :: 0 <= k < |gets| && Escapes(gets[k])
                        && (forall j :: 0 <= j < k ==> !Escapes(gets[j]))
                        && r.error == gets[k].error
    ensures r == Outcomes(gets)
  {
    var results: seq<CallResult<R>> := [];
    var i := 0;
    while i < |gets|
      invariant 0 <= i <= |gets|
      invariant |results| == i
      invariant forall j :: 0 <= j < i ==> !Escapes(gets[j]) && results[j] == Record(gets[j])
    {
      if Escapes(gets[i]) {
        FirstEscapeIsOutcome(gets, i);
        return Err(gets[i].error);
      }
      results := results + [Record(gets[i])];
      i := i + 1;
    }
    assert results == Outcomes(gets).value;
    r := Ok(results);
  }

  /** The first wait that raises an `Error` decides what `Outcomes` raises. */
  lemma FirstEscapeIsOutcome<R>(gets: seq<Got<R>>, k: nat)
    requires k < |gets| && Escapes(gets[k])
    requires forall j :: 0 <= j < k ==> !Escapes(gets[j])
    ensures Outcomes(gets) == Err(gets[k].error)
  {
    var r := Outcomes(gets);
    var k' :| 0 <= k' < |gets| && Escapes(gets[k'])
              && (forall j :: 0 <= j < k' ==> !Escapes(gets[j]))
              && r.error == gets[k'].error;
  }

  /** Over uninterrupted waits, no `Error` escapes the loop (the task's own
      throwable arrives inside an `ExecutionException`), and the outcome of
      each callable is its value (null included) or exactly the throwable it
      threw, at its own index. */
  lemma ExecuteRecordsCallOutcomes<R>(calls: seq<Call<R>>)
    ensures Outcomes(FutureGets(calls)).Ok?
    ensures |Outcomes(FutureGets(calls)).value| == |calls|
    ensures forall i :: 0 <= i < |calls| && calls[i].Returns? ==>
              Outcomes(FutureGets(calls)).value[i] == NewSuccessResult(calls[i].value)
    ensures forall i :: 0 <= i < |calls| && calls[i].Throws? ==>
              Outcomes(FutureGets(calls)).value[i] == NewFailResult(Some(calls[i].error))
    ensures forall i :: 0 <= i < |calls| ==>
              (IsFailure(Outcomes(FutureGets(calls)).value[i]) <==> calls[i].Throws?)
  {
    var gets := FutureGets(calls);
    assert forall i :: 0 <= i < |gets| ==> !Escapes(gets[i]);
  }

  // ---------------------------------------------------------------------------
  // processInThreadPool

  /** How `processInThreadPool` raises a recorded throwable: a
      `RuntimeException` as itself, anything else wrapped as the cause of a new
      `RuntimeException` carrying its message. */
  function Rethrow(t: Throwable): Throwable {
    if IsRuntime(t.cls) then t else Throwable(RuntimeException, t.message, Some(t))
  }

  /** The index of the lowest failing outcome, if any. */
  function FirstFailure<R>(outs: seq<CallResult<R>>): (k: Option<nat>)
    ensures k.Some? ==> k.value < |outs| && IsFailure(outs[k.value])
    ensures k.Some? ==> forall j :: 0 <= j < k.value ==> !IsFailure(outs[j])
    ensures k.None? ==> forall j :: 0 <= j < |outs| ==> !IsFailure(outs[j])
  {
    if |outs| == 0 then None
    else if IsFailure(outs[0]) then Some(0)
    else match FirstFailure(outs[1..])
      case None => None
      case Some(k) => Some(k + 1)
  }

  /** The scan of `processInThreadPool` over the recorded outcomes: all result
      data in order when nothing failed, else the lowest-index failure
      re-raised. */
  function Process<R>(outs: seq<CallResult<R>>): (r: Result<seq<Option<R>>, Throwable>)
    ensures r.Ok? <==> forall i :: 0 <= i < |outs| ==> !IsFailure(outs[i])
    ensures r.Ok? ==> |r.value| == |outs|
    ensures r.Ok? ==> forall i :: 0 <= i < |outs| ==> r.value[i] == outs[i].resultData
    ensures r.Err? ==> exists k :: 0 <= k < |outs| && IsFailure(outs[k])
                        && (forall j :: 0 <= j < k ==> !IsFailure(outs[j]))
                        && r.error == Rethrow(outs[k].throwable.value)
    ensures r.Err? ==> IsRuntime(r.error.cls)
  {
    match FirstFailure(outs)
    case Some(k) => Err(Rethrow(outs[k].throwable.value))
    case None => Ok(seq(|outs|, i requires 0 <= i < |outs| => outs[i].resultData))
  }

  /** `processInThreadPool` for the given waits: an `Error` that leaves
      `executeInThreadPool` passes through unchanged; otherwise the recorded
      outcomes are scanned. Either way only unchecked throwables escape. */
  function Processed<R>(gets: seq<Got<R>>): (r: Result<seq<Option<R>>, Throwable>)
    ensures Outcomes(gets).Err? ==> r == Err(Outcomes(gets).error)
    ensures Outcomes(gets).Ok? ==> r == Process(Outcomes(gets).value)
    ensures r.Err? ==> IsRuntime(r.error.cls) || r.error.cls == Error
  {
    match Outcomes(gets)
    case Err(e) => Err(e)
    case Ok(outs) => Process(outs)
  }

  /** The Java method: records every outcome, then walks them in order and
      throws at the first throwable. */
  method ProcessInThreadPool<R>(gets: seq<Got<R>>) returns (r: Result<seq<Option<R>>, Throwable>)
    ensures r.Err? && !IsException(r.error.cls) <==> exists k :: 0 <= k < |gets| && Escapes(gets[k])
    ensures r.Ok? ==> |r.value| == |gets|
    ensures r.Ok? ==> forall i :: 0 <= i < |gets| ==> !Escapes(gets[i]) && !IsFailure(Record(gets[i]))
                                                      && r.value[i] == Record(gets[i]).resultData
    ensures r == Processed(gets)
  {
    var executed := ExecuteInThreadPool(gets);
    if executed.Err? {
      return Err(executed.error);
    }
    var outs := executed.value;
    var values: seq<Option<R>> := [];
    var i := 0;
    while i < |outs|
      invariant 0 <= i <= |outs|
      invariant |values| == i
      invariant forall j :: 0 <= j < i ==> !IsFailure(outs[j]) && values[j] == outs[j].resultData
    {
      if outs[i].throwable.Some? {
        assert FirstFailure(outs) == Some(i);
        return Err(Rethrow(outs[i].throwable.value));
      }
      values := values + [outs[i].resultData];
      i := i + 1;
    }
    assert FirstFailure(outs) == None;
    assert values == seq(|outs|, j requires 0 <= j < |outs| => outs[j].resultData);
    r := Ok(values);
  }

  /** Over uninterrupted waits, processing succeeds exactly when no callable
      throws, and otherwise raises what the lowest-index throwing callable
      threw (wrapped when it is checked), an `Error` included. */
  lemma ProcessRaisesFirstCallFailure<R>(calls: seq<Call<R>>)
    ensures Processed(FutureGets(calls)).Ok? <==> forall i :: 0 <= i < |calls| ==> calls[i].Returns?
    ensures Processed(FutureGets(calls)).Ok? ==>
              forall i :: 0 <= i < |calls| ==> Processed(FutureGets(calls)).value[i] == calls[i].value
    ensures Processed(FutureGets(calls)).Err? ==>
              exists k :: 0 <= k < |calls| && calls[k].Throws?
                && (forall j :: 0 <= j < k ==> calls[j].Returns?)
                && Processed(FutureGets(calls)).error == Rethrow(calls[k].error)
  {
    ExecuteRecordsCallOutcomes(calls);
  }

  // ---------------------------------------------------------------------------
  // fetchFirstNonnullResult

  /** The exceptions the race loop catches and logs. */
  predicate Caught<R>(g: Got<R>) {
    g.Raised? && (g.error.cls == InterruptedException || g.error.cls == ExecutionException)
  }

  /** A completed outcome the race passes over: a null value or a caught exception. */
  predicate Skipped<R>(g: Got<R>) {
    g == Value(None) || Caught(g)
  }

  /** How a race ends: its value (null when nothing usable arrived) or the
      exception that escaped, and how many completed outcomes it took. */
  datatype Race<R> = Race(outcome: Result<Option<R>, Throwable>, taken: nat)

  /** The race loop from iteration `i` on, over the per-iteration outcomes of
      `completionService.take().get()` for `n` submitted callables. */
  function RaceFrom<R>(events: seq<Got<R>>, n: nat, i: nat): (r: Race<R>)
    requires i <= n <= |events|
    ensures i <= r.taken <= n
    ensures forall j :: i <= j < r.taken - 1 ==> Skipped(events[j])
    ensures r.outcome == Ok(None) <==> (r.taken == n && forall j :: i <= j < n ==> Skipped(events[j]))
    ensures r.outcome.Ok? && r.outcome.value.Some? ==>
              i < r.taken && events[r.taken - 1] == Value(r.outcome.value)
    ensures r.outcome.Err? ==>
              i < r.taken && events[r.taken - 1] == Raised(r.outcome.error) && !Caught(events[r.taken - 1])
    decreases n - i
  {
    if i == n then Race(Ok(None), n)
    else match events[i]
      case Value(v) =>
        if v.Some? then Race(Ok(v), i + 1) else RaceFrom(events, n, i + 1)
      case Raised(e) =>
        if Caught(events[i]) then RaceFrom(events, n, i + 1) else Race(Err(e), i + 1)
  }

  /** The Java method: submits the callables, takes at most one completed
      outcome per callable until a non-null value arrives, and in its
      `finally` cancels every submitted future, whichever way the loop ends. */
  method FetchFirstNonnullResult<R>(calls: seq<Call<R>>, events: seq<Got<R>>)
    returns (outcome: Result<Option<R>, Throwable>, taken: nat, cancelled: seq<nat>)
    requires |calls| <= |events|
    ensures Race(outcome, taken) == RaceFrom(events, |calls|, 0)
    ensures |cancelled| == |calls| && forall k :: 0 <= k < |calls| ==> cancelled[k] == k
  {
    var n := |calls|;
    var result: Option<R> := None;
    var escaped: Option<Throwable> := None;
    var i := 0;
    while i < n && result.None? && escaped.None?
      invariant 0 <= i <= n
      invariant result.None? && escaped.None? ==> RaceFrom(events, n, 0) == RaceFrom(events, n, i)
      invariant result.Some? ==> escaped.None? && RaceFrom(events, n, 0) == Race(Ok(result), i)
      invariant escaped.Some? ==> RaceFrom(events, n, 0) == Race(Err(escaped.value), i)
      decreases n - i
    {
      var g := events[i];
      i := i + 1;
      match g
      case Value(v) =>
        result := v;
      case Raised(e) =>
        if !Caught(g) {
          escaped := Some(e);
        }
    }
    // finally: cancel every submitted future, in submission order
    cancelled := seq(n, j => j);
    taken := i;
    outcome := if escaped.Some? then Err(escaped.value) else Ok(result);
  }

  /** A completion order: every submitted callable completes exactly once. */
  ghost predicate IsCompletionOrder(order: seq<nat>, n: nat) {
    && |order| == n
    && (forall i :: 0 <= i < n ==> order[i] < n)
    && (forall i, k :: 0 <= i < k < n ==> order[i] != order[k])
    && (forall j :: 0 <= j < n ==> j in order)
  }

  /** The outcomes a completion service hands out for `calls` completing in
      `order`, with no interrupt of the waiting thread. */
  function InOrder<R>(calls: seq<Call<R>>, order: seq<nat>): (events: seq<Got<R>>)
    requires forall i :: 0 <= i < |order| ==> order[i] < |calls|
    ensures |events| == |order|
  {
    seq(|order|, i requires 0 <= i < |order| => FutureGet(calls[order[i]]))
  }

  /** Without interrupts the race never throws; it returns a non-null value
      some callable returned, and null exactly when no callable returns a
      non-null value. */
  lemma RaceReturnsSomeNonnullValue<R>(calls: seq<Call<R>>, order: seq<nat>)
    requires IsCompletionOrder(order, |calls|)
    ensures RaceFrom(InOrder(calls, order), |calls|, 0).outcome.Ok?
    ensures var v := RaceFrom(InOrder(calls, order), |calls|, 0).outcome.value;
            v.Some? ==> exists j :: 0 <= j < |calls| && calls[j] == Returns(v)
    ensures RaceFrom(InOrder(calls, order), |calls|, 0).outcome == Ok(None) <==>
            forall j :: 0 <= j < |calls| ==> calls[j].Throws? || calls[j].value.None?
  {
    var n := |calls|;
    var events := InOrder(calls, order);
    var r := RaceFrom(events, n, 0);
    if r.outcome.Err? {
      assert false;
    }
    if r.outcome.value.Some? {
      assert events[r.taken - 1] == FutureGet(calls[order[r.taken - 1]]);
    }
    if r.outcome == Ok(None) {
      forall j | 0 <= j < n
        ensures calls[j].Throws? || calls[j].value.None?
      {
        assert j in order;
        var i :| 0 <= i < |order| && order[i] == j;
        assert Skipped(events[i]);
        assert events[i] == FutureGet(calls[j]);
      }
    } else if forall j :: 0 <= j < n ==> calls[j].Throws? || calls[j].value.None? {
      assert false;
    }
  }
}
