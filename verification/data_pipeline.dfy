/** A staged pipeline: an ordered list of stages, each a handler running on
    a worker pool, applied to a batch of items. A SYNC stage waits for all
    its items before the next stage starts; an ASYNC stage only hands its
    items to the pool.

    Handlers and pools are named by opaque identifiers. A run of `pushData`
    is described by the sequence of submit and wait events it performs, in
    the order the calling thread performs them. */
module DataPipeline {
  import opened Wrappers
  import opened Throwables
  import TPU = ThreadPoolUtil
  import CR = CallResult

  datatype TransferType = SYNC | ASYNC

  datatype Stage = Stage(handler: nat, executor: string, mode: TransferType)

  datatype Pipeline = Pipeline(stages: seq<Stage>)

  /** `newPipeline`. */
  function NewPipeline(): Pipeline {
    Pipeline([])
  }

  /** `addHandler(handler, executor, type)`: each argument must be non-null,
      checked in that order; the stage is appended and the same pipeline
      returned. */
  function AddHandler(p: Pipeline, handler: Option<nat>, executor: Option<string>, mode: Option<TransferType>)
    : (r: Result<Pipeline, Throwable>)
    ensures r.Err? <==> handler.None? || executor.None? || mode.None?
    ensures r.Err? ==> r.error.cls == NullPointerException
    ensures r.Ok? ==> r.value.stages == p.stages + [Stage(handler.value, executor.value, mode.value)]
  {
    if handler.None? then Err(Raise(NullPointerException, "dataHandler is null"))
    else if executor.None? then Err(Raise(NullPointerException, "executorService is null"))
    else if mode.None? then Err(Raise(NullPointerException, "handlerTransferType is null"))
    else Ok(Pipeline(p.stages + [Stage(handler.value, executor.value, mode.value)]))
  }

  /** `addHandler(handler, executor)`: a SYNC stage. */
  function AddSyncHandler(p: Pipeline, handler: Option<nat>, executor: Option<string>)
    : (r: Result<Pipeline, Throwable>)
    ensures r.Err? <==> handler.None? || executor.None?
    ensures r.Ok? ==> r.value.stages == p.stages + [Stage(handler.value, executor.value, SYNC)]
  {
    AddHandler(p, handler, executor, Some(SYNC))
  }

  /** `DataHandlerWrapper.handle`: an `Exception` from the handler is caught
      and the item counts as handled; an `Error` passes through. */
  function Wrap(c: TPU.Call<()>): (r: TPU.Call<()>)
    ensures r.Throws? <==> c.Throws? && !IsException(c.error.cls)
    ensures r.Throws? ==> r == c
  {
    if c.Throws? && IsException(c.error.cls) then TPU.Returns(None) else c
  }

  /** What the calling thread of `pushData` does: hand item `item` of the
      batch to the pool of stage `stage`, or wait for that task to finish. */
  datatype Event = Submit(stage: nat, item: nat) | Await(stage: nat, item: nat)

  function Submits(k: nat, from: nat, n: nat): (r: seq<Event>)
    requires from <= n
    ensures |r| == n - from
    ensures forall j :: 0 <= j < |r| ==> r[j] == Submit(k, from + j)
    decreases n - from
  {
    if from == n then [] else [Submit(k, from)] + Submits(k, from + 1, n)
  }

  function Awaits(k: nat, from: nat, n: nat): (r: seq<Event>)
    requires from <= n
    ensures |r| == n - from
    ensures forall j :: 0 <= j < |r| ==> r[j] == Await(k, from + j)
    decreases n - from
  {
    if from == n then [] else [Await(k, from)] + Awaits(k, from + 1, n)
  }

  /** `handleData` for stage `k` over `n` items: submit every item; a SYNC
      stage then waits for each task in item order (the outcomes it collects
      are discarded). */
  function HandleData(k: nat, s: Stage, n: nat): (r: seq<Event>)
    ensures |r| == if s.mode == SYNC then 2 * n else n
    ensures forall e :: e in r ==> e.stage == k && e.item < n
  {
    Submits(k, 0, n) + if s.mode == SYNC then Awaits(k, 0, n) else []
  }

  /** `pushData` from stage `from` on: the stages in list order, each over the
      whole batch. */
  function PushFrom(p: Pipeline, from: nat, n: nat): (r: seq<Event>)
    requires from <= |p.stages|
    ensures forall e :: e in r ==> from <= e.stage < |p.stages| && e.item < n
    decreases |p.stages| - from
  {
    if from == |p.stages| then []
    else HandleData(from, p.stages[from], n) + PushFrom(p, from + 1, n)
  }

  function PushData(p: Pipeline, n: nat): seq<Event> {
    PushFrom(p, 0, n)
  }

  /** Stage `k` over `n` items submits each item, and waits for it exactly
      when the stage is SYNC. */
  lemma HandleDataEvents(k: nat, s: Stage, n: nat, j: nat)
    requires j < n
    ensures Submit(k, j) in HandleData(k, s, n)
    ensures Await(k, j) in HandleData(k, s, n) <==> s.mode == SYNC
  {
    var head := HandleData(k, s, n);
    var subs := Submits(k, 0, n);
    assert subs[j] == Submit(k, j);
    if s.mode == SYNC {
      assert Awaits(k, 0, n)[j] == Await(k, j);
      assert head[n + j] == Await(k, j);
    } else {
      assert head == subs;
    }
  }

  /** Every stage sees every item once, and only SYNC stages wait: `pushData`
      submits item j to stage k, and waits for it exactly when stage k is SYNC. */
  lemma {:induction false} EveryStageSeesEveryItem(p: Pipeline, from: nat, n: nat)
    requires from <= |p.stages|
    ensures forall k: nat, j: nat :: from <= k < |p.stages| && j < n ==> Submit(k, j) in PushFrom(p, from, n)
    ensures forall k: nat, j: nat :: from <= k < |p.stages| && j < n ==>
              (Await(k, j) in PushFrom(p, from, n) <==> p.stages[k].mode == SYNC)
    decreases |p.stages| - from
  {
    if from < |p.stages| {
      EveryStageSeesEveryItem(p, from + 1, n);
      var head := HandleData(from, p.stages[from], n);
      var rest := PushFrom(p, from + 1, n);
      assert PushFrom(p, from, n) == head + rest;
      forall k: nat, j: nat | from <= k < |p.stages| && j < n
        ensures Submit(k, j) in head + rest
        ensures Await(k, j) in head + rest <==> p.stages[k].mode == SYNC
      {
        if k == from {
          HandleDataEvents(from, p.stages[from], n, j);
          assert Await(k, j) !in rest;
        } else {
          assert Await(k, j) !in head;
          assert Submit(k, j) in rest;
        }
      }
    }
  }

  /** The events' stages never decrease along the sequence. */
  predicate StageOrdered(r: seq<Event>) {
    forall a, b :: 0 <= a < b < |r| ==> r[a].stage <= r[b].stage
  }

  lemma OrderedAppend(head: seq<Event>, rest: seq<Event>, k: nat)
    requires forall e :: e in head ==> e.stage == k
    requires forall e :: e in rest ==> k < e.stage
    requires StageOrdered(rest)
    ensures StageOrdered(head + rest)
  {
    var r := head + rest;
    forall a, b | 0 <= a < b < |r|
      ensures r[a].stage <= r[b].stage
    {
      if a < |head| {
        assert r[a] in head;
        if b < |head| {
          assert r[b] in head;
        } else {
          assert r[b] == rest[b - |head|];
        }
      } else {
        assert r[a] == rest[a - |head|] && r[b] == rest[b - |head|];
      }
    }
  }

  /** Stages run one after another: every event of an earlier stage comes
      before every event of a later one, so a SYNC stage has waited for all
      its items before the next stage submits anything. */
  lemma {:induction false} StagesRunInOrder(p: Pipeline, from: nat, n: nat)
    requires from <= |p.stages|
    ensures StageOrdered(PushFrom(p, from, n))
    decreases |p.stages| - from
  {
    if from < |p.stages| {
      StagesRunInOrder(p, from + 1, n);
      var head, rest := HandleData(from, p.stages[from], n), PushFrom(p, from + 1, n);
      assert PushFrom(p, from, n) == head + rest;
      OrderedAppend(head, rest, from);
    }
  }

  /** Within one SYNC stage, the tasks are all submitted before the first wait. */
  lemma SyncStageSubmitsBeforeWaiting(k: nat, s: Stage, n: nat)
    requires s.mode == SYNC
    ensures var r := HandleData(k, s, n);
            (forall a :: 0 <= a < n ==> r[a] == Submit(k, a))
            && (forall a :: n <= a < 2 * n ==> r[a] == Await(k, a - n))
  {
    var r := HandleData(k, s, n);
    forall a | n <= a < 2 * n
      ensures r[a] == Await(k, a - n)
    {
      assert r[a] == Awaits(k, 0, n)[a - n];
    }
  }

  /** The callable a SYNC stage submits for one item: the wrapped handler,
      given what the handler itself does, followed by `return null`. */
  function StageCall(handled: TPU.Call<()>): (r: TPU.Call<()>)
    ensures r.Returns? ==> r.value.None?
  {
    match Wrap(handled)
    case Throws(e) => TPU.Throws(e)
    case Returns(_) => TPU.Returns(None)
  }

  /** What `executeInThreadPool` records for a SYNC stage whose handler does
      `handled[i]` on item i: nothing escapes the stage; an item fails exactly
      when its handler raised an `Error`, and then holds that `Error`; every
      other item is a null success, an `Exception` of the handler included. */
  lemma WrappedStageOutcomes(handled: seq<TPU.Call<()>>)
    ensures var outs := TPU.Outcomes(TPU.FutureGets(seq(|handled|, i requires 0 <= i < |handled| => StageCall(handled[i]))));
            && outs.Ok? && |outs.value| == |handled|
            && (forall i :: 0 <= i < |handled| ==>
                  (CR.IsFailure(outs.value[i]) <==> handled[i].Throws? && !IsException(handled[i].error.cls)))
            && (forall i :: 0 <= i < |handled| && CR.IsFailure(outs.value[i]) ==>
                  outs.value[i].throwable == Some(handled[i].error) && handled[i].error.cls == Error)
            && (forall i :: 0 <= i < |handled| && !CR.IsFailure(outs.value[i]) ==>
                  outs.value[i] == CR.NewSuccessResult(None))
  {
    var calls := seq(|handled|, i requires 0 <= i < |handled| => StageCall(handled[i]));
    TPU.ExecuteRecordsCallOutcomes(calls);
  }
}
