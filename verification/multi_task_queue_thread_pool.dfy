/** A dispatcher that owns several named bounded FIFO queues in front of one
    shared worker pool. Each queue has a consumer thread that takes the head
    task and hands it to the pool; here that consumer is the `Forward` step.

    The shared pool is named by its registry key. Tasks are opaque values;
    a null task is `None`. */
module MultiTaskQueueThreadPool {
  import opened Wrappers
  import opened Throwables
  import opened Strings
  import TPF = ThreadPoolFactory

  datatype TaskQueueConfig = TaskQueueConfig(queueName: string, queueCapacity: int)

  /** A `LinkedBlockingQueue` with its fixed capacity; the head is `items[0]`. */
  datatype TaskQueue<T> = TaskQueue(capacity: nat, items: seq<T>)

  predicate QueueValid<T>(q: TaskQueue<T>) {
    q.capacity >= 1 && |q.items| <= q.capacity
  }

  datatype Dispatcher<T> = Dispatcher(
    threadPoolName: string,
    executor: string,
    queues: map<string, TaskQueue<T>>,
    consumers: seq<string>)

  /** Every queue respects its capacity. */
  ghost predicate Valid<T>(d: Dispatcher<T>) {
    forall q :: q in d.queues ==> QueueValid(d.queues[q])
  }

  /** The name given to the consumer thread of queue `q`. */
  function ConsumerName(threadPoolName: string, q: string): string {
    threadPoolName + "_" + q + "_consumer"
  }

  /** A consumer name determines its queue name. */
  lemma ConsumerNameInjective(p: string, a: string, b: string)
    requires ConsumerName(p, a) == ConsumerName(p, b)
    ensures a == b
  {
    var s := ConsumerName(p, a);
    assert |a| == |b|;
    assert a == s[|p| + 1..|p| + 1 + |a|];
    assert b == ConsumerName(p, b)[|p| + 1..|p| + 1 + |b|];
  }

  /** No config before position `i` carries the same queue name. */
  predicate IsFirst(configs: seq<TaskQueueConfig>, i: nat)
    requires i < |configs|
  {
    forall j :: 0 <= j < i ==> configs[j].queueName != configs[i].queueName
  }

  /** The queues and consumer names built from `configs[..n]`, in list
      order: a name already present is skipped, and the queue constructor
      refuses a capacity below one. */
  function BuildQueues<T>(threadPoolName: string, configs: seq<TaskQueueConfig>, n: nat)
    : (r: Result<(map<string, TaskQueue<T>>, seq<string>), Throwable>)
    requires n <= |configs|
    ensures r.Err? ==> r.error.cls == IllegalArgumentException
    decreases n
  {
    if n == 0 then Ok((map[], []))
    else
      var prev := BuildQueues<T>(threadPoolName, configs, n - 1);
      if prev.Err? then prev
      else
        var queues, consumers, c := prev.value.0, prev.value.1, configs[n - 1];
        if c.queueName in queues then prev
        else if c.queueCapacity <= 0 then Err(Raise(IllegalArgumentException, "queue capacity must be positive"))
        else Ok((queues[c.queueName := TaskQueue(c.queueCapacity, [])],
                 consumers + [ConsumerName(threadPoolName, c.queueName)]))
  }

  /** The first config of every name in `configs[..n]` has a positive capacity. */
  predicate FirstCapacitiesPositive(configs: seq<TaskQueueConfig>, n: nat)
    requires n <= |configs|
  {
    forall i :: 0 <= i < n && IsFirst(configs, i) ==> configs[i].queueCapacity > 0
  }

  /** The keys of `queues` are exactly the names in `configs[..n]`. */
  ghost predicate HoldsNames<T>(queues: map<string, TaskQueue<T>>, configs: seq<TaskQueueConfig>, n: nat)
    requires n <= |configs|
  {
    forall q :: q in queues <==> exists i :: 0 <= i < n && configs[i].queueName == q
  }

  lemma FirstCapacitiesStep(configs: seq<TaskQueueConfig>, n: nat)
    requires 0 < n <= |configs|
    ensures FirstCapacitiesPositive(configs, n) <==>
              FirstCapacitiesPositive(configs, n - 1) && (IsFirst(configs, n - 1) ==> configs[n - 1].queueCapacity > 0)
  {
  }

  lemma HoldsNamesStep<T>(queues: map<string, TaskQueue<T>>, v: TaskQueue<T>, configs: seq<TaskQueueConfig>, n: nat)
    requires 0 < n <= |configs| && HoldsNames(queues, configs, n - 1)
    ensures configs[n - 1].queueName in queues ==> HoldsNames(queues, configs, n)
    ensures HoldsNames(queues[configs[n - 1].queueName := v], configs, n)
  {
  }

  /** Building succeeds exactly when the first config of each name has a
      positive capacity, and then there is one queue per distinct name. */
  lemma {:induction false} BuildQueuesNames<T>(threadPoolName: string, configs: seq<TaskQueueConfig>, n: nat)
    requires n <= |configs|
    ensures var r := BuildQueues<T>(threadPoolName, configs, n);
            && (r.Ok? <==> FirstCapacitiesPositive(configs, n))
            && (r.Ok? ==> HoldsNames(r.value.0, configs, n))
    decreases n
  {
    if n > 0 {
      BuildQueuesNames<T>(threadPoolName, configs, n - 1);
      FirstCapacitiesStep(configs, n);
      var prev := BuildQueues<T>(threadPoolName, configs, n - 1);
      var r := BuildQueues<T>(threadPoolName, configs, n);
      if prev.Ok? {
        var queues, c := prev.value.0, configs[n - 1];
        FirstIffAbsent(configs, n - 1, queues);
        var v: TaskQueue<T> := TaskQueue(if c.queueCapacity > 0 then c.queueCapacity else 1, []);
        HoldsNamesStep(queues, v, configs, n);
        if c.queueName in queues {
          assert r == prev;
        } else if c.queueCapacity <= 0 {
          assert r.Err?;
        } else {
          assert r.value.0 == queues[c.queueName := v];
        }
      } else {
        assert r.Err?;
      }
    }
  }

  /** The name of a first config is not among the queues built before it. */
  lemma FirstIsNew<T>(threadPoolName: string, configs: seq<TaskQueueConfig>, n: nat)
    requires 0 < n <= |configs| && IsFirst(configs, n - 1)
    ensures var prev := BuildQueues<T>(threadPoolName, configs, n - 1);
            prev.Ok? ==> configs[n - 1].queueName !in prev.value.0
  {
    BuildQueuesNames<T>(threadPoolName, configs, n - 1);
    var prev := BuildQueues<T>(threadPoolName, configs, n - 1);
    if prev.Ok? {
      FirstIffAbsent(configs, n - 1, prev.value.0);
    }
  }

  /** The queue of each name is the one its first config describes, empty. */
  lemma {:induction false} BuildQueuesFirstWins<T>(threadPoolName: string, configs: seq<TaskQueueConfig>,
                                                   n: nat, i: nat)
    requires i < n <= |configs| && IsFirst(configs, i)
    ensures var r := BuildQueues<T>(threadPoolName, configs, n);
            r.Ok? ==> && configs[i].queueCapacity > 0
                      && configs[i].queueName in r.value.0
                      && r.value.0[configs[i].queueName] == TaskQueue(configs[i].queueCapacity, [])
    decreases n
  {
    var prev := BuildQueues<T>(threadPoolName, configs, n - 1);
    var r := BuildQueues<T>(threadPoolName, configs, n);
    assert prev.Err? ==> r == prev;
    if prev.Ok? && r.Ok? {
      var queues, c := prev.value.0, configs[n - 1];
      if i < n - 1 {
        BuildQueuesFirstWins<T>(threadPoolName, configs, n - 1, i);
        if c.queueName in queues {
          assert r == prev;
        } else {
          assert r.value.0 == queues[c.queueName := TaskQueue(c.queueCapacity, [])];
          assert configs[i].queueName != c.queueName;
        }
      } else {
        FirstIsNew<T>(threadPoolName, configs, n);
        assert r.value.0 == queues[c.queueName := TaskQueue(c.queueCapacity, [])];
      }
    }
  }

  /** There is one consumer per queue, named after it, and no name twice. */
  lemma {:induction false} BuildQueuesConsumers<T>(threadPoolName: string, configs: seq<TaskQueueConfig>, n: nat)
    requires n <= |configs|
    ensures var r := BuildQueues<T>(threadPoolName, configs, n);
            r.Ok? ==> && (forall q :: q in r.value.0 <==> ConsumerName(threadPoolName, q) in r.value.1)
                      && (forall a, b :: 0 <= a < b < |r.value.1| ==> r.value.1[a] != r.value.1[b])
    decreases n
  {
    if n > 0 {
      BuildQueuesConsumers<T>(threadPoolName, configs, n - 1);
      var prev := BuildQueues<T>(threadPoolName, configs, n - 1);
      if prev.Ok? {
        var queues, consumers, c := prev.value.0, prev.value.1, configs[n - 1];
        if c.queueName !in queues && c.queueCapacity > 0 {
          var tq: TaskQueue<T> := TaskQueue(c.queueCapacity, []);
          NewConsumerIsFresh(threadPoolName, c.queueName, queues, consumers);
          ConsumersTrackQueues(threadPoolName, c.queueName, tq, queues, consumers);
          assert BuildQueues<T>(threadPoolName, configs, n).value
              == (queues[c.queueName := tq], consumers + [ConsumerName(threadPoolName, c.queueName)]);
        }
      }
    }
  }

  lemma FirstIffAbsent<T>(configs: seq<TaskQueueConfig>, i: nat, queues: map<string, TaskQueue<T>>)
    requires i < |configs|
    requires forall q :: q in queues <==> exists j :: 0 <= j < i && configs[j].queueName == q
    ensures IsFirst(configs, i) <==> configs[i].queueName !in queues
  {
    if configs[i].queueName in queues {
      var j :| 0 <= j < i && configs[j].queueName == configs[i].queueName;
    }
  }

  lemma NewConsumerIsFresh<T>(p: string, q: string, queues: map<string, TaskQueue<T>>, consumers: seq<string>)
    requires q !in queues
    requires forall x :: x in queues <==> ConsumerName(p, x) in consumers
    ensures ConsumerName(p, q) !in consumers
  {
  }

  lemma ConsumersTrackQueues<T>(p: string, q: string, v: TaskQueue<T>, queues: map<string, TaskQueue<T>>,
                                consumers: seq<string>)
    requires forall x :: x in queues <==> ConsumerName(p, x) in consumers
    ensures forall x :: x in queues[q := v] <==> ConsumerName(p, x) in consumers + [ConsumerName(p, q)]
  {
    forall x | ConsumerName(p, x) in consumers + [ConsumerName(p, q)]
      ensures x in queues || x == q
    {
      if ConsumerName(p, x) == ConsumerName(p, q) {
        ConsumerNameInjective(p, x, q);
      }
    }
  }

  /** The constructor: rejects a blank name, a null executor and an empty
      (or null) config list, then creates one queue and consumer per
      distinct queue name, the first config for a name winning. */
  function New<T>(threadPoolName: string, executor: Option<string>, configs: seq<TaskQueueConfig>)
    : (r: Result<Dispatcher<T>, Throwable>)
    ensures IsBlank(threadPoolName) || executor.None? || configs == [] ==> r.Err?
    ensures r.Err? ==> r.error.cls == IllegalArgumentException
    ensures r.Ok? ==> Valid(r.value) && r.value.threadPoolName == threadPoolName
                      && r.value.executor == executor.value
    ensures !IsBlank(threadPoolName) && executor.Some? && configs != [] ==>
              (r.Ok? <==> forall i :: 0 <= i < |configs| && IsFirst(configs, i) ==> configs[i].queueCapacity > 0)
    ensures r.Ok? ==> forall q :: q in r.value.queues <==> exists i :: 0 <= i < |configs| && configs[i].queueName == q
    ensures r.Ok? ==> forall i :: 0 <= i < |configs| && IsFirst(configs, i) ==>
                        r.value.queues[configs[i].queueName] == TaskQueue(configs[i].queueCapacity, [])
    ensures r.Ok? ==> forall q :: q in r.value.queues <==> ConsumerName(threadPoolName, q) in r.value.consumers
    ensures r.Ok? ==> forall a, b :: 0 <= a < b < |r.value.consumers| ==> r.value.consumers[a] != r.value.consumers[b]
  {
    if IsBlank(threadPoolName) then Err(Raise(IllegalArgumentException, "threadPoolName is blank"))
    else if executor.None? then Err(Raise(IllegalArgumentException, "executorService is null"))
    else if configs == [] then Err(Raise(IllegalArgumentException, "queueNames is empty"))
    else
      var built := BuildQueues<T>(threadPoolName, configs, |configs|);
      BuildQueuesNames<T>(threadPoolName, configs, |configs|);
      forall i | 0 <= i < |configs| && IsFirst(configs, i)
        ensures built.Ok? ==> built.value.0[configs[i].queueName] == TaskQueue(configs[i].queueCapacity, [])
      {
        BuildQueuesFirstWins<T>(threadPoolName, configs, |configs|, i);
      }
      BuildQueuesConsumers<T>(threadPoolName, configs, |configs|);
      if built.Err? then Err(built.error)
      else
        NewQueuesValid(configs, built.value.0);
        Ok(Dispatcher(threadPoolName, executor.value, built.value.0, built.value.1))
  }

  lemma NewQueuesValid<T>(configs: seq<TaskQueueConfig>, queues: map<string, TaskQueue<T>>)
    requires forall q :: q in queues <==> exists i :: 0 <= i < |configs| && configs[i].queueName == q
    requires forall i :: 0 <= i < |configs| && IsFirst(configs, i) ==> configs[i].queueCapacity > 0
    requires forall i :: 0 <= i < |configs| && IsFirst(configs, i) ==>
               queues[configs[i].queueName] == TaskQueue(configs[i].queueCapacity, [])
    ensures forall q :: q in queues ==> QueueValid(queues[q])
  {
    forall q | q in queues
      ensures QueueValid(queues[q])
    {
      var i := FirstWith(configs, q);
    }
  }

  /** The position of the first config naming `q`. */
  function FirstWith(configs: seq<TaskQueueConfig>, q: string): (i: nat)
    requires exists i :: 0 <= i < |configs| && configs[i].queueName == q
    ensures i < |configs| && configs[i].queueName == q && IsFirst(configs, i)
  {
    if configs[0].queueName == q then 0
    else
      assert exists i :: 0 <= i < |configs[1..]| && configs[1..][i].queueName == q by {
        var k :| 0 <= k < |configs| && configs[k].queueName == q;
        assert configs[1..][k - 1].queueName == q;
      }
      var k := FirstWith(configs[1..], q);
      assert configs[k + 1] == configs[1..][k];
      k + 1
  }

  // ---------------------------------------------------------------------------
  // admission

  function MissingQueue(q: string): Throwable {
    Raise(NullPointerException, "no queue named " + q)
  }

  /** What `putTask` does when its queue exists and the task is not null:
      it appends now, or waits for room. */
  datatype PutOutcome<T> = Enqueued(dispatcher: Dispatcher<T>) | MustWait

  /** `putTask`: a null dereference when no queue has that name, the queue's
      refusal of a null task, otherwise append or wait for room. */
  function PutTask<T>(d: Dispatcher<T>, q: string, task: Option<T>): (r: Result<PutOutcome<T>, Throwable>)
    ensures q !in d.queues || task.None? <==> r.Err?
    ensures r.Err? ==> r.error.cls == NullPointerException
    ensures r.Ok? && r.value.MustWait? <==>
              q in d.queues && task.Some? && |d.queues[q].items| >= d.queues[q].capacity
    ensures r.Ok? && r.value.Enqueued? ==>
              r.value.dispatcher == d.(queues := d.queues[q := d.queues[q].(items := d.queues[q].items + [task.value])])
  {
    if q !in d.queues || task.None? then Err(MissingQueue(q))
    else if |d.queues[q].items| >= d.queues[q].capacity then Ok(MustWait)
    else Ok(Enqueued(Append(d, q, task.value)))
  }

  function Append<T>(d: Dispatcher<T>, q: string, task: T): Dispatcher<T>
    requires q in d.queues
  {
    d.(queues := d.queues[q := d.queues[q].(items := d.queues[q].items + [task])])
  }

  /** `offerTask`, with the wait for room abstracted away: the task is
      appended iff the queue has room, and the boolean reports it. */
  function OfferTask<T>(d: Dispatcher<T>, q: string, task: Option<T>): (r: Result<(Dispatcher<T>, bool), Throwable>)
    requires Valid(d)
    ensures q !in d.queues || task.None? <==> r.Err?
    ensures r.Err? ==> r.error.cls == NullPointerException
    ensures r.Ok? ==> Valid(r.value.0)
    ensures r.Ok? ==> (r.value.1 <==> |d.queues[q].items| < d.queues[q].capacity)
    ensures r.Ok? ==> r.value.0.queues.Keys == d.queues.Keys
    ensures r.Ok? ==> r.value.0.queues[q].items ==
                        if r.value.1 then d.queues[q].items + [task.value] else d.queues[q].items
    ensures r.Ok? ==> forall p :: p in d.queues && p != q ==> r.value.0.queues[p] == d.queues[p]
    ensures r.Ok? ==> r.value.0 == d.(queues := r.value.0.queues)
  {
    if q !in d.queues || task.None? then Err(MissingQueue(q))
    else if |d.queues[q].items| >= d.queues[q].capacity then Ok((d, false))
    else Ok((Append(d, q, task.value), true))
  }

  /** `queueSize`. */
  function QueueSize<T>(d: Dispatcher<T>, q: string): (r: Result<nat, Throwable>)
    requires Valid(d)
    ensures r.Err? <==> q !in d.queues
    ensures r.Err? ==> r.error.cls == NullPointerException
    ensures r.Ok? ==> r.value == |d.queues[q].items| && r.value <= d.queues[q].capacity
  {
    if q !in d.queues then Err(MissingQueue(q)) else Ok(|d.queues[q].items|)
  }

  // ---------------------------------------------------------------------------
  // forwarding

  /** One iteration of a queue's consumer: take the head and hand it to the
      shared pool. When the queue is empty the consumer is still waiting and
      nothing happens. Whatever the pool does with the task (a rejection
      included) is caught inside the loop, so the task leaves the queue
      either way. */
  function Forward<T>(d: Dispatcher<T>, q: string): (r: (Dispatcher<T>, Option<T>))
    requires q in d.queues
    ensures d.queues[q].items == [] ==> r == (d, None)
    ensures d.queues[q].items != [] ==>
              && r.1 == Some(d.queues[q].items[0])
              && q in r.0.queues && r.0.queues[q].items == d.queues[q].items[1..]
    ensures r.0.queues.Keys == d.queues.Keys && r.0.queues[q].capacity == d.queues[q].capacity
    ensures forall p :: p in d.queues && p != q ==> r.0.queues[p] == d.queues[p]
    ensures r.0 == d.(queues := r.0.queues)
  {
    var items := d.queues[q].items;
    if items == [] then (d, None)
    else (d.(queues := d.queues[q := d.queues[q].(items := items[1..])]), Some(items[0]))
  }

  /** A step of the single-caller trace on one queue. */
  datatype Op<T> = OfferOp(task: T) | ForwardOp

  /** One trace step on queue `q`: the dispatcher afterwards, the task the
      step admitted (if any) and the task it handed to the pool (if any). */
  function StepOn<T>(d: Dispatcher<T>, q: string, op: Op<T>): (r: (Dispatcher<T>, seq<T>, seq<T>))
    requires Valid(d) && q in d.queues
    ensures Valid(r.0) && q in r.0.queues && r.0.queues.Keys == d.queues.Keys
    ensures forall p :: p in d.queues && p != q ==> r.0.queues[p] == d.queues[p]
    ensures d.queues[q].items + r.1 == r.2 + r.0.queues[q].items
  {
    match op
    case OfferOp(t) =>
      var (d1, ok) := OfferTask(d, q, Some(t)).value;
      (d1, if ok then [t] else [], [])
    case ForwardOp =>
      var (d1, head) := Forward(d, q);
      if head.Some? then
        assert d.queues[q].items == [head.value] + d1.queues[q].items;
        (d1, [], [head.value])
      else (d1, [], [])
  }

  /** Runs a trace on queue `q`: returns the dispatcher afterwards, the tasks
      admitted by offers and the tasks handed to the pool, in order. */
  function Run<T>(d: Dispatcher<T>, q: string, ops: seq<Op<T>>): (r: (Dispatcher<T>, seq<T>, seq<T>))
    requires Valid(d) && q in d.queues
    ensures Valid(r.0) && q in r.0.queues && r.0.queues.Keys == d.queues.Keys
    ensures forall p :: p in d.queues && p != q ==> r.0.queues[p] == d.queues[p]
    decreases |ops|
  {
    if ops == [] then (d, [], [])
    else
      var s := StepOn(d, q, ops[0]);
      var rest := Run(s.0, q, ops[1..]);
      (rest.0, s.1 + rest.1, s.2 + rest.2)
  }

  /** Within one queue, tasks reach the pool in the order they were admitted:
      what was queued plus what was admitted equals what was forwarded plus
      what is still queued. */
  lemma {:induction false} RunIsFifo<T>(d: Dispatcher<T>, q: string, ops: seq<Op<T>>)
    requires Valid(d) && q in d.queues
    ensures d.queues[q].items + Run(d, q, ops).1 == Run(d, q, ops).2 + Run(d, q, ops).0.queues[q].items
    decreases |ops|
  {
    if ops != [] {
      var s := StepOn(d, q, ops[0]);
      var rest := Run(s.0, q, ops[1..]);
      RunIsFifo(s.0, q, ops[1..]);
      assert Run(d, q, ops) == (rest.0, s.1 + rest.1, s.2 + rest.2);
      var a, b, c, e, f := d.queues[q].items, s.1, s.2, s.0.queues[q].items, rest.0.queues[q].items;
      SeqShuffle(a, b, c, e, rest.1, rest.2, f);
    }
  }

  lemma SeqShuffle<T>(a: seq<T>, b: seq<T>, c: seq<T>, e: seq<T>, b2: seq<T>, c2: seq<T>, f: seq<T>)
    requires a + b == c + e && e + b2 == c2 + f
    ensures a + (b + b2) == (c + c2) + f
  {
      calc {
        a + (b + b2);
        (a + b) + b2;
        (c + e) + b2;
        c + (e + b2);
        c + (c2 + f);
        (c + c2) + f;
      }
  }

  // ---------------------------------------------------------------------------
  // introspection: reads through to the shared pool

  function GetPoolSize<T>(d: Dispatcher<T>, reg: TPF.Registry): int
    requires d.executor in reg
  {
    reg[d.executor].poolSize
  }

  function GetCorePoolSize<T>(d: Dispatcher<T>, reg: TPF.Registry): int
    requires d.executor in reg
  {
    reg[d.executor].corePoolSize
  }

  function GetPoolActiveCount<T>(d: Dispatcher<T>, reg: TPF.Registry): int
    requires d.executor in reg
  {
    reg[d.executor].activeCount
  }

  function GetMaximumPoolSize<T>(d: Dispatcher<T>, reg: TPF.Registry): int
    requires d.executor in reg
  {
    reg[d.executor].maximumPoolSize
  }

  function GetThreadPoolName<T>(d: Dispatcher<T>): string {
    d.threadPoolName
  }
}
