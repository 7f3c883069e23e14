/** A request batcher: callers enqueue timestamped requests into one bounded
    FIFO; a consumer repeatedly checks two triggers (the head has waited long
    enough, or enough requests are queued) and hands the oldest requests to
    the merge handler in one call. Each request carries a result slot the
    handler fills.

    The clock is the explicit `now` argument; the consumer's park between
    checks is the absence of a batch. */
module RequestMerger {
  import opened Wrappers
  import opened Throwables
  import Strings

  /** The request's result slot: the `result` field, and the value its
      one-shot task captured when it first ran (`None` until then). */
  datatype Slot<R> = Slot(result: Option<R>, completed: Option<Option<R>>)

  function EmptySlot<R>(): Slot<R> {
    Slot(None, None)
  }

  /** `setResult`: stores the field and runs the task, which only its first
      run completes; it captures the field as it is then. */
  function SetResult<R>(s: Slot<R>, v: Option<R>): (r: Slot<R>)
    ensures r.result == v
    ensures s.completed.None? ==> r.completed == Some(v)
    ensures s.completed.Some? ==> r.completed == s.completed
  {
    var s1 := s.(result := v);
    if s1.completed.None? then s1.(completed := Some(s1.result)) else s1
  }

  /** What `getResult` does: wait until the slot is completed, then return
      the captured value. */
  datatype Read<R> = Waits | Returns(value: Option<R>)

  function GetResult<R>(s: Slot<R>): (r: Read<R>)
    ensures r.Waits? <==> s.completed.None?
  {
    if s.completed.None? then Waits else Returns(s.completed.value)
  }

  /** Applies `setResult` for each value in turn. */
  function SetResults<R>(s: Slot<R>, vs: seq<Option<R>>): Slot<R>
    decreases |vs|
  {
    if vs == [] then s else SetResults(SetResult(s, vs[0]), vs[1..])
  }

  /** Single assignment: after any non-empty sequence of `setResult` calls
      on a fresh slot, `getResult` returns the first value, while the field
      holds the last. */
  lemma {:induction false} FirstResultWins<R>(vs: seq<Option<R>>)
    requires vs != []
    ensures GetResult(SetResults(EmptySlot<R>(), vs)) == Returns(vs[0])
    ensures SetResults(EmptySlot<R>(), vs).result == vs[|vs| - 1]
  {
    CompletedSlotKeepsValue(SetResult(EmptySlot<R>(), vs[0]), vs[1..]);
    if |vs| > 1 {
      LastWrittenField(SetResult(EmptySlot<R>(), vs[0]), vs[1..]);
    }
  }

  lemma {:induction false} CompletedSlotKeepsValue<R>(s: Slot<R>, vs: seq<Option<R>>)
    requires s.completed.Some?
    ensures SetResults(s, vs).completed == s.completed
    decreases |vs|
  {
    if vs != [] {
      CompletedSlotKeepsValue(SetResult(s, vs[0]), vs[1..]);
    }
  }

  lemma {:induction false} LastWrittenField<R>(s: Slot<R>, vs: seq<Option<R>>)
    requires vs != []
    ensures SetResults(s, vs).result == vs[|vs| - 1]
    decreases |vs|
  {
    if |vs| > 1 {
      LastWrittenField(SetResult(s, vs[0]), vs[1..]);
      assert vs[1..][|vs[1..]| - 1] == vs[|vs| - 1];
    }
  }

  datatype Request<T, R> = Request(enqueueTime: int, param: Option<T>, slot: Slot<R>)

  /** The merger: its batch size, its maximum wait for the head (ms), the
      queue capacity and the queue, oldest first. */
  datatype Merger<T, R> = Merger(
    mergerCount: int,
    mergerMillisInterval: int,
    queueCapacity: nat,
    queue: seq<Request<T, R>>)

  predicate Valid<T, R>(m: Merger<T, R>) {
    m.queueCapacity >= 1 && |m.queue| <= m.queueCapacity
  }

  /** The constructor; the queue refuses a capacity below one. */
  function New<T, R>(mergerCount: int, mergerMillisInterval: int, queueCapacity: int)
    : (r: Result<Merger<T, R>, Throwable>)
    ensures r.Ok? <==> queueCapacity > 0
    ensures r.Err? ==> r.error.cls == IllegalArgumentException
    ensures r.Ok? ==> Valid(r.value) && r.value.queue == []
                      && r.value.mergerCount == mergerCount
                      && r.value.mergerMillisInterval == mergerMillisInterval
                      && r.value.queueCapacity == queueCapacity
  {
    if queueCapacity <= 0 then Err(Raise(IllegalArgumentException, "capacity must be positive"))
    else Ok(Merger(mergerCount, mergerMillisInterval, queueCapacity, []))
  }

  /** `putRequest`: stamps the request with `now`, then appends it, or waits
      for room when the queue is full (`None`). */
  function PutRequest<T, R>(m: Merger<T, R>, req: Request<T, R>, now: int)
    : (r: (Request<T, R>, Option<Merger<T, R>>))
    requires Valid(m)
    ensures r.0 == req.(enqueueTime := now)
    ensures r.1.Some? <==> |m.queue| < m.queueCapacity
    ensures r.1.Some? ==> Valid(r.1.value) && r.1.value == m.(queue := m.queue + [r.0])
  {
    var stamped := req.(enqueueTime := now);
    if |m.queue| < m.queueCapacity then (stamped, Some(m.(queue := m.queue + [stamped])))
    else (stamped, None)
  }

  /** `offerRequest`, with the wait for room abstracted away: stamps the
      request (even when it is then refused) and appends it iff there is room. */
  function OfferRequest<T, R>(m: Merger<T, R>, req: Request<T, R>, now: int)
    : (r: (Request<T, R>, Merger<T, R>, bool))
    requires Valid(m)
    ensures r.0 == req.(enqueueTime := now)
    ensures r.2 <==> |m.queue| < m.queueCapacity
    ensures Valid(r.1)
    ensures r.1 == m.(queue := if r.2 then m.queue + [r.0] else m.queue)
  {
    var stamped := req.(enqueueTime := now);
    if |m.queue| < m.queueCapacity then (stamped, m.(queue := m.queue + [stamped]), true)
    else (stamped, m, false)
  }

  /** `queueSize`. */
  function QueueSize<T, R>(m: Merger<T, R>): (r: nat)
    requires Valid(m)
    ensures r <= m.queueCapacity
  {
    |m.queue|
  }

  predicate TimeTrigger<T, R>(m: Merger<T, R>, now: int) {
    m.queue != [] && now - m.queue[0].enqueueTime >= m.mergerMillisInterval
  }

  predicate CountTrigger<T, R>(m: Merger<T, R>) {
    |m.queue| >= m.mergerCount
  }

  /** The number of requests a firing iteration takes: `min(size, count)`,
      where a negative count takes none. */
  function BatchSize<T, R>(m: Merger<T, R>): (k: nat)
    ensures k <= |m.queue|
    ensures m.mergerCount <= 0 ==> k == 0
    ensures m.mergerCount >= 0 ==> k <= m.mergerCount && (k == |m.queue| || k == m.mergerCount)
  {
    if m.mergerCount <= 0 then 0
    else if |m.queue| <= m.mergerCount then |m.queue| else m.mergerCount
  }

  /** One iteration of the consumer loop at time `now`: if either trigger
      holds, the oldest requests leave the queue as one batch for the
      handler; otherwise the consumer parks and nothing changes. What the
      handler does with the batch, a thrown exception included, does not
      affect the merger. */
  function ConsumerStep<T, R>(m: Merger<T, R>, now: int): (r: (Merger<T, R>, Option<seq<Request<T, R>>>))
    requires Valid(m)
    ensures Valid(r.0)
    ensures r.1.Some? <==> TimeTrigger(m, now) || CountTrigger(m)
    ensures r.1.None? ==> r.0 == m
    ensures r.1.Some? ==> r.1.value + r.0.queue == m.queue && |r.1.value| == BatchSize(m)
    ensures r.0 == m.(queue := r.0.queue)
  {
    if TimeTrigger(m, now) || CountTrigger(m) then
      var k := BatchSize(m);
      assert m.queue[..k] + m.queue[k..] == m.queue;
      (m.(queue := m.queue[k..]), Some(m.queue[..k]))
    else (m, None)
  }

  /** With a positive batch size, an empty queue never fires, and no batch
      is larger than the batch size. */
  lemma BatchBounds<T, R>(m: Merger<T, R>, now: int)
    requires Valid(m) && m.mergerCount >= 1
    ensures m.queue == [] ==> ConsumerStep(m, now).1.None?
    ensures ConsumerStep(m, now).1.Some? ==> |ConsumerStep(m, now).1.value| <= m.mergerCount
  {
  }

  /** With a batch size of zero or less, the count trigger always holds and
      every iteration hands the handler an empty batch. */
  lemma NonPositiveCountFiresEmpty<T, R>(m: Merger<T, R>, now: int)
    requires Valid(m) && m.mergerCount <= 0
    ensures ConsumerStep(m, now) == (m, Some([]))
  {
  }

  /** The batches of a run of consumer iterations at the given times,
      concatenated, and the merger afterwards. */
  function RunConsumer<T, R>(m: Merger<T, R>, times: seq<int>): (r: (Merger<T, R>, seq<Request<T, R>>))
    requires Valid(m)
    ensures Valid(r.0)
    decreases |times|
  {
    if times == [] then (m, [])
    else
      var step := ConsumerStep(m, times[0]);
      var rest := RunConsumer(step.0, times[1..]);
      (rest.0, Batch(step.1) + rest.1)
  }

  /** What one iteration hands the handler; nothing when it parks. */
  function Batch<T, R>(batch: Option<seq<Request<T, R>>>): seq<Request<T, R>> {
    if batch.Some? then batch.value else []
  }

  /** Requests reach the handler exactly once each and in arrival order:
      the handled requests followed by those still queued are the queue the
      run started from. */
  lemma {:induction false} ConsumerIsFifo<T, R>(m: Merger<T, R>, times: seq<int>)
    requires Valid(m)
    ensures RunConsumer(m, times).1 + RunConsumer(m, times).0.queue == m.queue
    decreases |times|
  {
    if times != [] {
      var step := ConsumerStep(m, times[0]);
      ConsumerIsFifo(step.0, times[1..]);
      var rest := RunConsumer(step.0, times[1..]);
      var b := Batch(step.1);
      assert RunConsumer(m, times) == (rest.0, b + rest.1);
      assert b + step.0.queue == m.queue;
      assert rest.1 + rest.0.queue == step.0.queue;
      Strings.ConcatAssoc(b, rest.1, rest.0.queue);
    }
  }

  /** A worked case with batch size 3 and a 100 ms window: two requests at
      t=0 and t=10 wait at t=50, leave together at t=100, and a full batch of
      three leaves at once, before its head has waited. */
  lemma ScenarioCountAndTime(a: Request<int, int>, b: Request<int, int>, c: Request<int, int>)
    ensures var m0 := New<int, int>(3, 100, 10).value;
            var m1 := OfferRequest(m0, a, 0).1;
            var m2 := OfferRequest(m1, b, 10).1;
            && ConsumerStep(m2, 50).1.None?
            && ConsumerStep(m2, 100).1 == Some([a.(enqueueTime := 0), b.(enqueueTime := 10)])
            && ConsumerStep(m2, 100).0.queue == []
            && var m3 := OfferRequest(m2, c, 20).1;
               ConsumerStep(m3, 20).1 == Some([a.(enqueueTime := 0), b.(enqueueTime := 10), c.(enqueueTime := 20)])
  {
    var a0, b0, c0 := a.(enqueueTime := 0), b.(enqueueTime := 10), c.(enqueueTime := 20);
    var m0 := New<int, int>(3, 100, 10).value;
    var m2 := OfferRequest(OfferRequest(m0, a, 0).1, b, 10).1;
    assert m2.queue == [a0, b0];
    assert m2.queue[..2] == [a0, b0];
    var m3 := OfferRequest(m2, c, 20).1;
    assert m3.queue == [a0, b0, c0];
    assert m3.queue[..3] == [a0, b0, c0];
  }
}
