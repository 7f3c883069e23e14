# common-tools thread pools, Spring starters and utilities in Dafny

This project models the core of the `common-tools` Java toolkit in Dafny: the
thread-pool helpers (`ThreadPoolUtil`, `CallResult`, `ThreadPoolFactory`,
`NamedThreadFactory`, `ThreadPoolGroup`, `MultiTaskQueueThreadPool` and its
factory), the request batcher `RequestMerger`, the staged `DataPipeline`, the
Spring lifecycle pair `AbstractStarter` / `ContextListenerManager`, and the
static utilities `PropertyUtil`, `URLUtils` and `IPUtil`.

There is one Dafny module per Java class, with the same name, in a
lower-case file (`thread_pool_group.dfy` holds `ThreadPoolGroup`). Shared
modules:

- `Wrappers` defines `Option` and `Result`. A Java `null` that the code checks for, or is affected by, is `None`.
- `Throwables` defines the Java exception classes the code raises and catches, and `instanceof RuntimeException` / `instanceof Exception`.
- `Strings` defines `StringUtils.isBlank`, `startsWith`/`endsWith`, `String.valueOf` of a non-negative int, and `String.compareTo`.

The model runs on one thread, with static state passed as values:

- **Thread-pool registry.** The static registry of `ThreadPoolFactory` is a map from pool name to pool. A pool is referred to by its name, since entries are never removed or replaced.
- **PropertyUtil state.** The `TreeMap` of `PropertyUtil` is a sorted sequence of entries.
- **Queues.** Each queue is a sequence with its capacity.
- **Inputs.** Things the code cannot control are inputs:
  - a callable's outcome;
  - the order in which futures complete;
  - the clock;
  - the class-path resources;
  - the network interfaces;
  - the URL and IP codecs of the JDK and Guava.
- **Threads.** A consumer thread's endless loop is one step function. A run of that thread is a trace of steps.
- **Blocking.** When a blocking call would wait, the model reports it (`MustWait`) and does not wait.

## Model

| member | source | states |
|---|---|---|
| CallResult.SetThrowable | src/main/java/com/github/acticfox/common/tools/thredpool/CallResult.java:19-21 | sets the throwable and leaves the result data alone |
| CallResult.SetResultData | src/main/java/com/github/acticfox/common/tools/thredpool/CallResult.java:27-29 | sets the result data and leaves the throwable alone |
| CallResult.NewFailResult | src/main/java/com/github/acticfox/common/tools/thredpool/CallResult.java:31-35 | holds the throwable and no data; it is a failure exactly when the throwable is not null |
| CallResult.NewSuccessResult | src/main/java/com/github/acticfox/common/tools/thredpool/CallResult.java:37-41 | holds the data and no throwable, so it is never a failure |
| CallResult.FailMeetsSuccessOnlyAtNull | src/main/java/com/github/acticfox/common/tools/thredpool/CallResult.java:31-41 | a fail result equals a success result only when both are built from null |
| CallResult.SettersCommute | src/main/java/com/github/acticfox/common/tools/thredpool/CallResult.java:19-29 | the two setters write independent fields, so their order does not matter |
| NamedThreadFactory.NewThread | src/main/java/com/github/acticfox/common/tools/thredpool/NamedThreadFactory.java:29-36 | the thread is named prefix plus the current counter, and the counter advances by one; the thread is non-daemon; its priority is normal, lowered to the group maximum when that is below |
| NamedThreadFactory.NewThreads | src/main/java/com/github/acticfox/common/tools/thredpool/NamedThreadFactory.java:20-36 | k threads advance the counter by k; the i-th thread is named with counter value start + i; none is a daemon |
| NamedThreadFactory.FreshFactoryNaming | src/main/java/com/github/acticfox/common/tools/thredpool/NamedThreadFactory.java:23-36 | a new factory for `name` names its k-th thread "name-thread-k", counting from 1; normal priority whenever the group allows it |
| NamedThreadFactory.ThreadNamesDistinct | src/main/java/com/github/acticfox/common/tools/thredpool/NamedThreadFactory.java:29-31 | threads made by one factory never share a name |
| ThreadPoolUtil.FutureGets | src/main/java/com/github/acticfox/common/tools/thredpool/ThreadPoolUtil.java:63-71 | there is one wait per submitted callable, in submission order; a thrown error comes back wrapped in an ExecutionException |
| ThreadPoolUtil.Outcomes | src/main/java/com/github/acticfox/common/tools/thredpool/ThreadPoolUtil.java:59-82 | the method returns iff no wait raises an `Error`, with one outcome per future in order: a value as a success, an interrupt as itself, an ExecutionException as its cause, any other Exception as itself. Otherwise it throws the `Error` of the first wait that raised one |
| ThreadPoolUtil.ExecuteInThreadPool | src/main/java/com/github/acticfox/common/tools/thredpool/ThreadPoolUtil.java:59-82 | the Java loop records outcomes in order and stops at the first `Error`, which leaves it uncaught; it computes the same thing as the functional definition |
| ThreadPoolUtil.FirstEscapeIsOutcome | src/main/java/com/github/acticfox/common/tools/thredpool/ThreadPoolUtil.java:68-80 | the first wait that raises an `Error` decides what the method throws, whatever later waits do |
| ThreadPoolUtil.ExecuteRecordsCallOutcomes | src/main/java/com/github/acticfox/common/tools/thredpool/ThreadPoolUtil.java:59-82 | over uninterrupted waits on the tasks, nothing escapes, since even an `Error` of a callable arrives inside an ExecutionException. A callable that returns becomes a success holding its value, and one that throws becomes a failure holding exactly what it threw |
| ThreadPoolUtil.FirstFailure | src/main/java/com/github/acticfox/common/tools/thredpool/ThreadPoolUtil.java:38-45 | finds the lowest-index failed outcome, or reports that none failed |
| ThreadPoolUtil.Process | src/main/java/com/github/acticfox/common/tools/thredpool/ThreadPoolUtil.java:35-49 | succeeds iff no outcome failed, with every result in order. Otherwise it raises the lowest failure, unchanged when it is a RuntimeException and wrapped in one otherwise, so what escapes is always unchecked |
| ThreadPoolUtil.Processed | src/main/java/com/github/acticfox/common/tools/thredpool/ThreadPoolUtil.java:35-49 | an `Error` thrown by `executeInThreadPool` passes through unchanged; otherwise the outcomes are scanned as above. Whatever escapes is a RuntimeException or an Error |
| ThreadPoolUtil.ProcessInThreadPool | src/main/java/com/github/acticfox/common/tools/thredpool/ThreadPoolUtil.java:35-49 | throws an `Error` iff some wait raised one. On success every wait neither escaped nor failed, and the values are the recorded data in order. It computes the same thing as the functional definition |
| ThreadPoolUtil.ProcessRaisesFirstCallFailure | src/main/java/com/github/acticfox/common/tools/thredpool/ThreadPoolUtil.java:25-49 | with no interrupts, processing succeeds iff every callable returns, yielding their values in order. Otherwise it raises the lowest-index callable's own throwable, an `Error` included, rethrown as above |
| ThreadPoolUtil.RaceFrom | src/main/java/com/github/acticfox/common/tools/thredpool/ThreadPoolUtil.java:101-110 | the race ends at the first non-null value or the first exception the loop does not catch. It yields null iff it went through all n outcomes and each was null or a caught interrupt/ExecutionException |
| ThreadPoolUtil.FetchFirstNonnullResult | src/main/java/com/github/acticfox/common/tools/thredpool/ThreadPoolUtil.java:92-117 | the loop ends with the race's outcome, and the `finally` cancels every submitted future however the loop ended |
| ThreadPoolUtil.InOrder | src/main/java/com/github/acticfox/common/tools/thredpool/ThreadPoolUtil.java:94-103 | a completion service hands out one wait per completion |
| ThreadPoolUtil.RaceReturnsSomeNonnullValue | src/main/java/com/github/acticfox/common/tools/thredpool/ThreadPoolUtil.java:84-117 | with no interrupts, and whatever the completion order, the race never throws; it returns a non-null value some callable returned, and null iff no callable returns a non-null value |
| ThreadPoolFactory.CreateThreadPool | src/main/java/com/github/acticfox/common/tools/thredpool/ThreadPoolFactory.java:32-101 | see the note after this table |
| ThreadPoolFactory.SecondRequestReturnsSamePool | src/main/java/com/github/acticfox/common/tools/thredpool/ThreadPoolFactory.java:73-78 | a second request for the same name returns the cached pool with the same size and the same rejection policy, and leaves the registry unchanged |
| ThreadPoolFactory.ResizeKeepsIdentity | src/main/java/com/github/acticfox/common/tools/thredpool/ThreadPoolFactory.java:32-59 | a later request with another positive size resizes the cached pool in place, keeping its name, thread factory and policy; a size of 0 or below is refused |
| ThreadPoolGroup.SetThreadPoolNum | src/main/java/com/github/acticfox/common/tools/thredpool/ThreadPoolGroup.java:38-41 | throws IllegalStateException iff the group is initialized; otherwise changes only the pool count |
| ThreadPoolGroup.SetThreadNumPerThreadPool | src/main/java/com/github/acticfox/common/tools/thredpool/ThreadPoolGroup.java:47-50 | throws IllegalStateException iff the group is initialized; otherwise changes only the thread count |
| ThreadPoolGroup.SetGroupName | src/main/java/com/github/acticfox/common/tools/thredpool/ThreadPoolGroup.java:56-59 | throws IllegalStateException iff the group is initialized; otherwise changes only the name |
| ThreadPoolGroup.PoolNameNotBlank | src/main/java/com/github/acticfox/common/tools/thredpool/ThreadPoolGroup.java:66 | a generated pool name is never blank, so the blank-name check in the pool helper never fires |
| ThreadPoolGroup.PoolNamesDistinct | src/main/java/com/github/acticfox/common/tools/thredpool/ThreadPoolGroup.java:64-66 | pools at different positions get different names |
| ThreadPoolGroup.CreatePools | src/main/java/com/github/acticfox/common/tools/thredpool/ThreadPoolGroup.java:64-67 | the loop creates one pool per position, named "<group>-threadPool-<n+1>", and keeps the registry well formed |
| ThreadPoolGroup.CreatePoolsEffect | src/main/java/com/github/acticfox/common/tools/thredpool/ThreadPoolGroup.java:92-109 | the created pools are registered with the given thread count, and no other registry entry changes |
| ThreadPoolGroup.Init | src/main/java/com/github/acticfox/common/tools/thredpool/ThreadPoolGroup.java:61-69 | see the note after this table |
| ThreadPoolGroup.InitRegistersPools | src/main/java/com/github/acticfox/common/tools/thredpool/ThreadPoolGroup.java:61-69 | the pools `init` adds are in the registry with the configured thread count, and other entries are untouched |
| ThreadPoolGroup.InitIsOneShot | src/main/java/com/github/acticfox/common/tools/thredpool/ThreadPoolGroup.java:38-76 | a second `init` changes nothing, and after `init` every setter throws |
| ThreadPoolGroup.FetchIndex | src/main/java/com/github/acticfox/common/tools/thredpool/ThreadPoolGroup.java:115-129 | the chosen index is stored as the new current index, and it stays in range when the current one is in range |
| ThreadPoolGroup.FetchIndices | src/main/java/com/github/acticfox/common/tools/thredpool/ThreadPoolGroup.java:115-129 | k selections hand out k indices |
| ThreadPoolGroup.RoundRobinCycle | src/main/java/com/github/acticfox/common/tools/thredpool/ThreadPoolGroup.java:115-129 | successive selections walk the pools cyclically: the i-th index is (current + 1 + i) mod poolCount |
| ThreadPoolGroup.RoundRobinFromStart | src/main/java/com/github/acticfox/common/tools/thredpool/ThreadPoolGroup.java:115-129 | from the initial index -1, the j-th selection picks pool j mod poolCount |
| ThreadPoolGroup.Process | src/main/java/com/github/acticfox/common/tools/thredpool/ThreadPoolGroup.java:138-142 | before `init` it throws IllegalStateException and selects nothing; afterwards it advances the round robin and runs on the selected pool, with the outcome of `processInThreadPool`, an escaping `Error` included. When no pool exists at the selected index it throws IndexOutOfBoundsException |
| ThreadPoolGroup.Execute | src/main/java/com/github/acticfox/common/tools/thredpool/ThreadPoolGroup.java:151-155 | like `process`, but with the outcome list of `executeInThreadPool`, or the `Error` it throws; IndexOutOfBoundsException when no pool exists at the selected index |
| ThreadPoolGroup.Shutdown | src/main/java/com/github/acticfox/common/tools/thredpool/ThreadPoolGroup.java:85-90 | throws iff the group is not initialized; otherwise marks exactly the group's pools as shut down and leaves every other pool alone |
| MultiTaskQueueThreadPool.ConsumerNameInjective | src/main/java/com/github/acticfox/common/tools/thredpool/MultiTaskQueueThreadPool.java:59 | consumer thread names of one dispatcher determine their queue |
| MultiTaskQueueThreadPool.BuildQueues | src/main/java/com/github/acticfox/common/tools/thredpool/MultiTaskQueueThreadPool.java:46-63 | the only failure of the per-config loop is the queue constructor's IllegalArgumentException |
| MultiTaskQueueThreadPool.BuildQueuesNames | src/main/java/com/github/acticfox/common/tools/thredpool/MultiTaskQueueThreadPool.java:46-63 | the loop succeeds iff the first config of every queue name has a positive capacity, and then there is a queue for exactly the names configured |
| MultiTaskQueueThreadPool.BuildQueuesFirstWins | src/main/java/com/github/acticfox/common/tools/thredpool/MultiTaskQueueThreadPool.java:47-48 | a repeated queue name is skipped: each queue has the capacity of the first config carrying its name, and starts empty |
| MultiTaskQueueThreadPool.BuildQueuesConsumers | src/main/java/com/github/acticfox/common/tools/thredpool/MultiTaskQueueThreadPool.java:49-61 | one consumer thread is started per queue, named "<pool>_<queue>_consumer", and no name is used twice |
| MultiTaskQueueThreadPool.New | src/main/java/com/github/acticfox/common/tools/thredpool/MultiTaskQueueThreadPool.java:32-64 | see the note after this table |
| MultiTaskQueueThreadPool.NewQueuesValid | src/main/java/com/github/acticfox/common/tools/thredpool/MultiTaskQueueThreadPool.java:46-63 | every queue built respects its capacity |
| MultiTaskQueueThreadPool.FirstWith | src/main/java/com/github/acticfox/common/tools/thredpool/MultiTaskQueueThreadPool.java:47 | a configured name has a first config carrying it |
| MultiTaskQueueThreadPool.PutTask | src/main/java/com/github/acticfox/common/tools/thredpool/MultiTaskQueueThreadPool.java:94-100 | an unknown queue or a null task is a NullPointerException. It waits iff the queue is full, otherwise it appends at the tail of that queue only |
| MultiTaskQueueThreadPool.OfferTask | src/main/java/com/github/acticfox/common/tools/thredpool/MultiTaskQueueThreadPool.java:113-116 | gives the same errors as `putTask`; the task is appended iff there is room, the result says so, and no other queue changes |
| MultiTaskQueueThreadPool.QueueSize | src/main/java/com/github/acticfox/common/tools/thredpool/MultiTaskQueueThreadPool.java:118-120 | is the number of queued tasks, never above the capacity; an unknown queue is a NullPointerException |
| MultiTaskQueueThreadPool.Forward | src/main/java/com/github/acticfox/common/tools/thredpool/MultiTaskQueueThreadPool.java:50-57 | one consumer iteration hands the head task to the pool and removes it; an empty queue changes nothing; other queues are untouched |
| MultiTaskQueueThreadPool.StepOn | src/main/java/com/github/acticfox/common/tools/thredpool/MultiTaskQueueThreadPool.java:50-116 | an offer or a forward keeps capacities and other queues, and queued plus admitted equals forwarded plus queued afterwards |
| MultiTaskQueueThreadPool.Run | src/main/java/com/github/acticfox/common/tools/thredpool/MultiTaskQueueThreadPool.java:50-116 | a trace of offers and forwards keeps every queue within capacity and leaves other queues untouched |
| MultiTaskQueueThreadPool.RunIsFifo | src/main/java/com/github/acticfox/common/tools/thredpool/MultiTaskQueueThreadPool.java:50-116 | within one queue, tasks reach the pool in the order they were admitted; nothing is lost or reordered |
| MultiTaskQueueThreadPoolFactory.CreateMultiTaskQueueThreadPool | src/main/java/com/github/acticfox/common/tools/thredpool/MultiTaskQueueThreadPoolFactory.java:34-62 | see the note after this table |
| MultiTaskQueueThreadPoolFactory.CachedInstanceSeesResize | src/main/java/com/github/acticfox/common/tools/thredpool/MultiTaskQueueThreadPoolFactory.java:44-48 | with a positive count, a second request returns the cached dispatcher, whose shared pool has been resized to the new config, ignoring the new queue configs; a count of 0 or below is refused with IllegalArgumentException and changes nothing |
| MultiTaskQueueThreadPoolFactory.EmptyQueuesRefusedOnlyOnFirstCreation | src/main/java/com/github/acticfox/common/tools/thredpool/MultiTaskQueueThreadPoolFactory.java:44-57 | an empty queue list fails on first creation, but the shared pool is already registered by then |
| RequestMerger.SetResult | src/main/java/com/github/acticfox/common/tools/util/RequestMerger.java:124-127 | writes the field; the one-shot task captures the value only on its first run |
| RequestMerger.GetResult | src/main/java/com/github/acticfox/common/tools/util/RequestMerger.java:115-117 | waits iff no result has been set yet |
| RequestMerger.FirstResultWins | src/main/java/com/github/acticfox/common/tools/util/RequestMerger.java:104-127 | after several `setResult` calls a reader gets the first value, though the field holds the last |
| RequestMerger.CompletedSlotKeepsValue | src/main/java/com/github/acticfox/common/tools/util/RequestMerger.java:124-127 | once completed, later writes never change what readers get |
| RequestMerger.LastWrittenField | src/main/java/com/github/acticfox/common/tools/util/RequestMerger.java:124-125 | the field holds the last value written |
| RequestMerger.New | src/main/java/com/github/acticfox/common/tools/util/RequestMerger.java:36-46 | succeeds iff the capacity is positive (the queue constructor refuses the rest), with an empty queue and the given settings |
| RequestMerger.PutRequest | src/main/java/com/github/acticfox/common/tools/util/RequestMerger.java:75-78 | stamps the request with the current time, then appends it at the tail iff there is room, otherwise waits |
| RequestMerger.OfferRequest | src/main/java/com/github/acticfox/common/tools/util/RequestMerger.java:80-83 | stamps the request; appends iff there is room and says whether it did; the queue stays within capacity |
| RequestMerger.QueueSize | src/main/java/com/github/acticfox/common/tools/util/RequestMerger.java:85-87 | never exceeds the capacity |
| RequestMerger.BatchSize | src/main/java/com/github/acticfox/common/tools/util/RequestMerger.java:55-61 | a batch takes min(queue size, count) requests, and none for a count of 0 or below |
| RequestMerger.ConsumerStep | src/main/java/com/github/acticfox/common/tools/util/RequestMerger.java:47-65 | a batch fires iff the head has waited the interval or the queue holds the count; it is the oldest requests, in order, removed from the queue; otherwise nothing changes |
| RequestMerger.BatchBounds | src/main/java/com/github/acticfox/common/tools/util/RequestMerger.java:52-61 | with a positive count, an empty queue never fires and a batch never exceeds the count |
| RequestMerger.NonPositiveCountFiresEmpty | src/main/java/com/github/acticfox/common/tools/util/RequestMerger.java:54-62 | with a count of 0 or below, every iteration hands the handler an empty batch and the queue never drains |
| RequestMerger.RunConsumer | src/main/java/com/github/acticfox/common/tools/util/RequestMerger.java:48-69 | the consumer loop over a sequence of clock readings keeps the queue within capacity |
| RequestMerger.ConsumerIsFifo | src/main/java/com/github/acticfox/common/tools/util/RequestMerger.java:48-69 | the batches handed out, concatenated, followed by what is still queued, are exactly the original queue |
| RequestMerger.ScenarioCountAndTime | src/main/java/com/github/acticfox/common/tools/util/RequestMerger.java:52-62 | worked example: two requests leave together once the head has waited 100 ms, and a full batch of three leaves at once |
| DataPipeline.AddHandler | src/main/java/com/github/acticfox/common/tools/util/DataPipeline.java:58-70 | a null handler, pool or mode throws NullPointerException; otherwise the stage is appended after the existing ones |
| DataPipeline.AddSyncHandler | src/main/java/com/github/acticfox/common/tools/util/DataPipeline.java:54-56 | the two-argument form appends a SYNC stage |
| DataPipeline.Wrap | src/main/java/com/github/acticfox/common/tools/util/DataPipeline.java:101-109 | the wrapper swallows every Exception; only an Error gets through, unchanged |
| DataPipeline.Submits | src/main/java/com/github/acticfox/common/tools/util/DataPipeline.java:40-50 | a stage submits one task per item, in item order |
| DataPipeline.Awaits | src/main/java/com/github/acticfox/common/tools/util/DataPipeline.java:44 | a SYNC stage waits once per item, in item order |
| DataPipeline.HandleData | src/main/java/com/github/acticfox/common/tools/util/DataPipeline.java:38-52 | a SYNC stage performs 2n events and an ASYNC stage n; all of them belong to that stage and one of the n items |
| DataPipeline.PushFrom | src/main/java/com/github/acticfox/common/tools/util/DataPipeline.java:32-36 | `pushData` only performs events of its stages and its items |
| DataPipeline.HandleDataEvents | src/main/java/com/github/acticfox/common/tools/util/DataPipeline.java:38-52 | every item is submitted, and it is waited on iff the stage is SYNC |
| DataPipeline.EveryStageSeesEveryItem | src/main/java/com/github/acticfox/common/tools/util/DataPipeline.java:32-52 | every stage submits every item, and waits on it iff that stage is SYNC |
| DataPipeline.StagesRunInOrder | src/main/java/com/github/acticfox/common/tools/util/DataPipeline.java:32-36 | the calling thread completes each stage's submits and waits before starting the next stage |
| DataPipeline.SyncStageSubmitsBeforeWaiting | src/main/java/com/github/acticfox/common/tools/util/DataPipeline.java:39-44 | a SYNC stage submits all its items before it waits on the first |
| DataPipeline.StageCall | src/main/java/com/github/acticfox/common/tools/util/DataPipeline.java:40-43 | the callable a SYNC stage submits returns null unless the wrapped handler lets an `Error` through |
| DataPipeline.WrappedStageOutcomes | src/main/java/com/github/acticfox/common/tools/util/DataPipeline.java:39-44 | for every handler behaviour, `executeInThreadPool` over a SYNC stage's wrapped callables throws nothing. An item's outcome is a failure exactly when its handler raised an `Error`, and then holds that `Error`; every other outcome is a null success, a handler `Exception` included |
| AbstractStarter.OnContextRefreshed | src/main/java/com/github/acticfox/common/tools/spring/AbstractStarter.java:26-33 | `start()` runs iff the starter was stopped. The starter is started afterwards even when `start()` throws, and what it throws is what the call raises |
| AbstractStarter.OnContextClosed | src/main/java/com/github/acticfox/common/tools/spring/AbstractStarter.java:42-49 | `shutdown()` runs iff the starter was started; the starter is stopped afterwards, and nothing happens otherwise |
| AbstractStarter.HooksAlternate | src/main/java/com/github/acticfox/common/tools/spring/AbstractStarter.java:26-49 | whatever the events and whatever the hooks raise, `start()` and `shutdown()` strictly alternate, and each flips the started flag |
| AbstractStarter.AlternateCons | src/main/java/com/github/acticfox/common/tools/spring/AbstractStarter.java:26-49 | one hook in front of the alternation from the other state continues the alternation |
| AbstractStarter.StarterScenarios | src/main/java/com/github/acticfox/common/tools/spring/AbstractStarter.java:26-49 | worked example: a second refresh does not restart, a close before any refresh does nothing, and a failed start still counts as started |
| ContextListenerManager.AddListener | src/main/java/com/github/acticfox/common/tools/spring/ContextListenerManager.java:20-22 | appends the listener at the end, keeping duplicates |
| ContextListenerManager.AfterPropertiesSet | src/main/java/com/github/acticfox/common/tools/spring/AbstractStarter.java:21-24 | a starter registers itself behind the existing listeners, which are kept as they were |
| ContextListenerManager.Notify | src/main/java/com/github/acticfox/common/tools/spring/ContextListenerManager.java:28-42 | a listener raises only what its hook raised |
| ContextListenerManager.BroadcastFrom | src/main/java/com/github/acticfox/common/tools/spring/ContextListenerManager.java:24-48 | a broadcast keeps the set of registered starters |
| ContextListenerManager.BroadcastContinues | src/main/java/com/github/acticfox/common/tools/spring/ContextListenerManager.java:26-33 | after a listener that returns or throws an Exception, the loop goes on with the next listener |
| ContextListenerManager.BroadcastCalls | src/main/java/com/github/acticfox/common/tools/spring/ContextListenerManager.java:24-48 | the listeners called are a prefix of the list, in list order, and all of it when nothing escapes |
| ContextListenerManager.BroadcastEscapes | src/main/java/com/github/acticfox/common/tools/spring/ContextListenerManager.java:26-46 | a throwable ends the broadcast only when it is not an Exception, and it is what the last listener called raised |
| ContextListenerManager.OnContext | src/main/java/com/github/acticfox/common/tools/spring/ContextListenerManager.java:24-48 | a broadcast over the whole list keeps the set of starters |
| ContextListenerManager.OnContextCallsInOrder | src/main/java/com/github/acticfox/common/tools/spring/ContextListenerManager.java:24-48 | both broadcasts call listeners in registration order (a close is not reversed); only a non-Exception throwable, raised by the last listener called, stops them early |
| ContextListenerManager.BroadcastCompletes | src/main/java/com/github/acticfox/common/tools/spring/ContextListenerManager.java:24-48 | when every hook returns or throws an Exception, every listener is called |
| ContextListenerManager.HookRunsOncePerStarter | src/main/java/com/github/acticfox/common/tools/spring/ContextListenerManager.java:24-48 | within one broadcast each starter's hook runs at most once, however often it is registered, and only for starters in the matching state |
| PropertyUtil.KeysOf | src/main/java/com/github/acticfox/common/tools/util/PropertyUtil.java:72 | the keys of the map, in map order |
| PropertyUtil.SortedIsDistinct | src/main/java/com/github/acticfox/common/tools/util/PropertyUtil.java:72 | a TreeMap, with keys strictly ascending, holds no key twice |
| PropertyUtil.SortedCons | src/main/java/com/github/acticfox/common/tools/util/PropertyUtil.java:72 | a key below all the others can go in front and the map stays sorted |
| PropertyUtil.SortedTail | src/main/java/com/github/acticfox/common/tools/util/PropertyUtil.java:72 | the rest of a sorted map is sorted and above its first key |
| PropertyUtil.Get | src/main/java/com/github/acticfox/common/tools/util/PropertyUtil.java:223 | `TreeMap.get` is non-null iff the key is present, and then returns that key's value |
| PropertyUtil.Put | src/main/java/com/github/acticfox/common/tools/util/PropertyUtil.java:113 | `TreeMap.put` keeps the keys sorted |
| PropertyUtil.PutThenGet | src/main/java/com/github/acticfox/common/tools/util/PropertyUtil.java:113 | after a put the key maps to the new value, and every other key keeps its value |
| PropertyUtil.PutAll | src/main/java/com/github/acticfox/common/tools/util/PropertyUtil.java:111-114 | merging a file's entries keeps the map sorted |
| PropertyUtil.PutAllOverrides | src/main/java/com/github/acticfox/common/tools/util/PropertyUtil.java:111-114 | a key of the merged file takes the file's value, and every other key keeps its value |
| PropertyUtil.Select | src/main/java/com/github/acticfox/common/tools/util/PropertyUtil.java:296-304 | a key range selects exactly the keys in range, keeping ascending order |
| PropertyUtil.IncreasingCons | src/main/java/com/github/acticfox/common/tools/util/PropertyUtil.java:296-304 | a key below an ascending list can go in front |
| PropertyUtil.SelectAgrees | src/main/java/com/github/acticfox/common/tools/util/PropertyUtil.java:296-304 | ranges that agree on every key select the same keys |
| PropertyUtil.GetAllPropertyNames | src/main/java/com/github/acticfox/common/tools/util/PropertyUtil.java:285-287 | enumerates exactly the keys of the map, in ascending order |
| PropertyUtil.FirstStrangerEndsBlock | src/main/java/com/github/acticfox/common/tools/util/PropertyUtil.java:298-302 | the sub-map up to the first key of the tail without the prefix holds exactly the keys with the prefix |
| PropertyUtil.IndexBelow | src/main/java/com/github/acticfox/common/tools/util/PropertyUtil.java:296-304 | in an ascending list a smaller key sits at a smaller index |
| PropertyUtil.WholeTailIsBlock | src/main/java/com/github/acticfox/common/tools/util/PropertyUtil.java:304 | when every key of the tail has the prefix, the tail is exactly the prefixed keys |
| PropertyUtil.GetPropertyNames | src/main/java/com/github/acticfox/common/tools/util/PropertyUtil.java:295-305 | the tail-map walk returns exactly the keys that start with the prefix, in ascending order |
| PropertyUtil.GetPropertyNamesOf | src/main/java/com/github/acticfox/common/tools/util/PropertyUtil.java:336-351 | null iff the properties or the prefix are null; otherwise exactly the names with the prefix, no more of them than the properties have |
| PropertyUtil.GetPropertiesValuesOf | src/main/java/com/github/acticfox/common/tools/util/PropertyUtil.java:360-371 | null iff the properties or the names are null; otherwise the set holds the lookup of every name and nothing else, holds null exactly when some name has no entry, and its other members are values of entries |
| PropertyUtil.LoadProperties | src/main/java/com/github/acticfox/common/tools/util/PropertyUtil.java:378-419 | null for a null or empty name; otherwise the entries of the resource named by the name with `.properties` appended, or null when no class loader finds it |
| PropertyUtil.GetPropertiesValues | src/main/java/com/github/acticfox/common/tools/util/PropertyUtil.java:314-327 | null iff the file cannot be loaded or the prefix is null; otherwise the set never holds null, and every member is the value of an entry whose key has the prefix |
| PropertyUtil.PrefixValuesAreEntries | src/main/java/com/github/acticfox/common/tools/util/PropertyUtil.java:314-371 | for a loaded file, the values by prefix never include null and are exactly the values of the file's entries whose key starts with the prefix |
| PropertyUtil.Next | src/main/java/com/github/acticfox/common/tools/util/PropertyUtil.java:226-234 | a lookup refers on only when its value starts with `@` |
| PropertyUtil.FewerUnvisited | src/main/java/com/github/acticfox/common/tools/util/PropertyUtil.java:233-234 | following a reference to an unvisited key leaves fewer keys unvisited |
| PropertyUtil.GetProperty | src/main/java/com/github/acticfox/common/tools/util/PropertyUtil.java:222-238 | a missing key gives null; a value `@key` answers itself; a value starting `@@` answers itself minus the first `@`; a value without `@` answers itself |
| PropertyUtil.JavaStep | src/main/java/com/github/acticfox/common/tools/util/PropertyUtil.java:233-234 | the Java recursion on a reference is the recursion on the referenced key |
| PropertyUtil.JavaDeeper | src/main/java/com/github/acticfox/common/tools/util/PropertyUtil.java:222-238 | a recursion that returns within some depth returns the same answer at any greater depth |
| PropertyUtil.ResolveAgreesWithJava | src/main/java/com/github/acticfox/common/tools/util/PropertyUtil.java:222-238 | an answer of the loop-detecting lookup is the Java recursion's answer |
| PropertyUtil.ResolveAnswers | src/main/java/com/github/acticfox/common/tools/util/PropertyUtil.java:226-237 | a lookup that answers started from an unvisited key, and answers what the direct value or the referenced key answers |
| PropertyUtil.JavaThroughReference | src/main/java/com/github/acticfox/common/tools/util/PropertyUtil.java:233-237 | the answer through a reference is the referenced key's answer |
| PropertyUtil.JavaCutOff | src/main/java/com/github/acticfox/common/tools/util/PropertyUtil.java:222-238 | the recursion runs out of depth d exactly when d + 1 references can be followed |
| PropertyUtil.FollowShift | src/main/java/com/github/acticfox/common/tools/util/PropertyUtil.java:233-234 | following n + 1 references is one reference, then n more |
| PropertyUtil.ChaseShift | src/main/java/com/github/acticfox/common/tools/util/PropertyUtil.java:233-234 | taking n + 1 steps of a chain is one step, then n more |
| PropertyUtil.ChaseAdd | src/main/java/com/github/acticfox/common/tools/util/PropertyUtil.java:233-234 | taking a + b steps is taking a, then b |
| PropertyUtil.LoopsRevisit | src/main/java/com/github/acticfox/common/tools/util/PropertyUtil.java:225-234 | a lookup that loops comes back to a key it passed |
| PropertyUtil.RevisitsPassed | src/main/java/com/github/acticfox/common/tools/util/PropertyUtil.java:233-234 | reaching a key already passed is a revisit |
| PropertyUtil.PassedAt | src/main/java/com/github/acticfox/common/tools/util/PropertyUtil.java:233-234 | a key passed was reached at some earlier step |
| PropertyUtil.LoopsStep | src/main/java/com/github/acticfox/common/tools/util/PropertyUtil.java:233-234 | a looping lookup takes one more reference, still loops, and leaves fewer keys unvisited |
| PropertyUtil.PassedGrows | src/main/java/com/github/acticfox/common/tools/util/PropertyUtil.java:233-234 | one more reference adds the current key to those passed |
| PropertyUtil.CycleNeverEnds | src/main/java/com/github/acticfox/common/tools/util/PropertyUtil.java:233-234 | once a chain revisits a key, it can be followed for any number of steps |
| PropertyUtil.ChasePrefix | src/main/java/com/github/acticfox/common/tools/util/PropertyUtil.java:233-234 | a chain that can take b steps can take any fewer |
| PropertyUtil.GetPropertyMatchesJava | src/main/java/com/github/acticfox/common/tools/util/PropertyUtil.java:222-238 | the lookup answers iff the Java recursion returns, and with the same value. It reports a loop iff the recursion never returns, at any depth (in Java, a stack overflow) |
| PropertyUtil.RefersTo | src/main/java/com/github/acticfox/common/tools/util/PropertyUtil.java:230-234 | a value `@k`, where k does not start with `@`, is a reference to k |
| PropertyUtil.TwoCycleLoops | src/main/java/com/github/acticfox/common/tools/util/PropertyUtil.java:225-234 | worked example: two keys that refer to each other loop: the self-reference guard does not catch longer cycles |
| PropertyUtil.ChainResolves | src/main/java/com/github/acticfox/common/tools/util/PropertyUtil.java:233-237 | a chain of references ending in a plain value answers that value |
| PropertyUtil.NextOfReference | src/main/java/com/github/acticfox/common/tools/util/PropertyUtil.java:226-234 | a value `@k` naming another key refers to it |
| PropertyUtil.EscapesResolve | src/main/java/com/github/acticfox/common/tools/util/PropertyUtil.java:226-232 | worked example: `@a` stored under `a` answers itself, and `@@b` answers `@b` |
| PropertyUtil.GetPropertyOrDefault | src/main/java/com/github/acticfox/common/tools/util/PropertyUtil.java:250-256 | the stored value as it is, or the default when the key is missing |
| PropertyUtil.DefaultLookupDoesNotFollow | src/main/java/com/github/acticfox/common/tools/util/PropertyUtil.java:222-256 | the two lookups agree on every present key that neither refers on nor carries an `@@` escape |
| PropertyUtil.Parent | src/main/java/com/github/acticfox/common/tools/util/PropertyUtil.java:430-431 | there is no parent iff the path has no `/` or is the root; a parent is a shorter prefix of the path |
| PropertyUtil.LastIndexOf | src/main/java/com/github/acticfox/common/tools/util/PropertyUtil.java:430-431 | finds the last occurrence of the character, or -1 |
| PropertyUtil.GetPropertiesPath | src/main/java/com/github/acticfox/common/tools/util/PropertyUtil.java:429-446 | the result ends with the added file name, and is that name alone when the resource has no directory |
| PropertyUtil.PathsAreSiblings | src/main/java/com/github/acticfox/common/tools/util/PropertyUtil.java:429-446 | a file inside a directory resolves its added files in that directory; a bare file name resolves them as they are |
| PropertyUtil.FileName | src/main/java/com/github/acticfox/common/tools/util/PropertyUtil.java:200-205 | the name always ends in `.properties`; it is kept when it does already, otherwise the extension is appended |
| PropertyUtil.FileNameIdempotent | src/main/java/com/github/acticfox/common/tools/util/PropertyUtil.java:200-205 | normalising a name twice is normalising it once |
| PropertyUtil.Load | src/main/java/com/github/acticfox/common/tools/util/PropertyUtil.java:108-175 | a missing resource changes nothing; a present one is recorded as read; the map stays sorted and only grows |
| PropertyUtil.AddFiles | src/main/java/com/github/acticfox/common/tools/util/PropertyUtil.java:116-128 | the numbered add-file loop only grows the map and the set of files read |
| PropertyUtil.AddPropertyFile | src/main/java/com/github/acticfox/common/tools/util/PropertyUtil.java:199-209 | a file already read, or missing, changes nothing; otherwise it is read under its full name |
| PropertyUtil.PutAllKeys | src/main/java/com/github/acticfox/common/tools/util/PropertyUtil.java:111-114 | merging never removes a key |
| PropertyUtil.PutAllKeeps | src/main/java/com/github/acticfox/common/tools/util/PropertyUtil.java:111-114 | a present key stays present after a merge |
| PropertyUtil.AddKeySetCard | src/main/java/com/github/acticfox/common/tools/util/PropertyUtil.java:117-121 | the keys `add.property.file.1` .. `.n` are n distinct keys |
| PropertyUtil.NamedUpTo | src/main/java/com/github/acticfox/common/tools/util/PropertyUtil.java:117-124 | the loop goes on to i + 1 only when key i is present |
| PropertyUtil.AddKeysBounded | src/main/java/com/github/acticfox/common/tools/util/PropertyUtil.java:117-124 | a file names no more added files than it has entries, so the loop ends |
| PropertyUtil.KeySetCard | src/main/java/com/github/acticfox/common/tools/util/PropertyUtil.java:111 | a file has no more keys than entries |
| PropertyUtil.AddPropertyFileIdempotent | src/main/java/com/github/acticfox/common/tools/util/PropertyUtil.java:199-209 | adding the same file twice reads it once |
| PropertyUtil.LoadMerges | src/main/java/com/github/acticfox/common/tools/util/PropertyUtil.java:108-129 | every key of a file read is in the map afterwards. A file without added files overrides exactly its own keys |
| URLUtils.PrefixedIsJoin | src/main/java/com/github/acticfox/common/tools/util/URLUtils.java:58-67 | writing a separator before every part, then dropping the first character, is joining the parts |
| URLUtils.SuffixedIsJoin | src/main/java/com/github/acticfox/common/tools/util/URLUtils.java:135-142 | writing a separator after every part is joining them plus a trailing separator |
| URLUtils.IndexOf | src/main/java/com/github/acticfox/common/tools/util/URLUtils.java:154-155 | finds a position of the character |
| URLUtils.Fields | src/main/java/com/github/acticfox/common/tools/util/URLUtils.java:154-155 | splitting yields at least one field |
| URLUtils.DropTrailingEmpty | src/main/java/com/github/acticfox/common/tools/util/URLUtils.java:154-155 | `String.split` drops exactly the trailing empty fields |
| URLUtils.Split | src/main/java/com/github/acticfox/common/tools/util/URLUtils.java:154-155 | a string without the separator splits into itself |
| URLUtils.IndexOfAfter | src/main/java/com/github/acticfox/common/tools/util/URLUtils.java:154-155 | the first separator is the one right after a separator-free prefix |
| URLUtils.FieldsOfJoin | src/main/java/com/github/acticfox/common/tools/util/URLUtils.java:154-155 | splitting the join of separator-free parts gives the parts back |
| URLUtils.SplitOfJoin | src/main/java/com/github/acticfox/common/tools/util/URLUtils.java:154-155 | `String.split` inverts joining when the last part is not empty |
| URLUtils.Pairs | src/main/java/com/github/acticfox/common/tools/util/URLUtils.java:60-65 | one encoded `key[=value]` pair per map entry, in iteration order |
| URLUtils.FormURLEncodeMap | src/main/java/com/github/acticfox/common/tools/util/URLUtils.java:54-67 | an empty map encodes to the empty string; otherwise the encoded pairs joined by `&`, a null value leaving out its `=` |
| URLUtils.AppendParametersToQueryString | src/main/java/com/github/acticfox/common/tools/util/URLUtils.java:117-126 | the URL is unchanged when there is nothing to add; otherwise the query is appended after `&` when the URL has a `?`, or after `?` when not |
| URLUtils.Rendered | src/main/java/com/github/acticfox/common/tools/util/URLUtils.java:137-140 | each entry is written `key=value`, a null value as `null` |
| URLUtils.ConcatSortedPercentEncodedParams | src/main/java/com/github/acticfox/common/tools/util/URLUtils.java:135-142 | an empty map throws, because `substring(0, -1)` does; otherwise the entries are joined by `&` |
| URLUtils.ToMap | src/main/java/com/github/acticfox/common/tools/util/URLUtils.java:158 | the map holds exactly the keys of the parameter list |
| URLUtils.ParseParam | src/main/java/com/github/acticfox/common/tools/util/URLUtils.java:155-157 | one parameter fails only by a missing key piece or an undecodable piece |
| URLUtils.PutParams | src/main/java/com/github/acticfox/common/tools/util/URLUtils.java:154-159 | the parameter loop fails only in the ways one parameter can |
| URLUtils.QueryStringToMap | src/main/java/com/github/acticfox/common/tools/util/URLUtils.java:151-162 | a null or empty query gives the empty map; the only failures are a missing key piece and an undecodable piece |
| URLUtils.LoneSeparatorThrows | src/main/java/com/github/acticfox/common/tools/util/URLUtils.java:155-156 | worked example: the query `=` throws an index exception: splitting it yields no pieces |
| URLUtils.ThirdPieceIgnored | src/main/java/com/github/acticfox/common/tools/util/URLUtils.java:155-158 | worked example: in `a=b=c`, only `a` and `b` are used |
| URLUtils.KeepsUpToNonEmpty | src/main/java/com/github/acticfox/common/tools/util/URLUtils.java:155 | dropping trailing empties keeps every field up to a non-empty one |
| URLUtils.FieldsCons | src/main/java/com/github/acticfox/common/tools/util/URLUtils.java:154-155 | splitting a separator-free head and the rest splits the rest |
| URLUtils.PairSplits | src/main/java/com/github/acticfox/common/tools/util/URLUtils.java:155 | an encoded pair splits back into its key and value pieces |
| URLUtils.ParamParsesBack | src/main/java/com/github/acticfox/common/tools/util/URLUtils.java:155-157 | one encoded parameter parses back to its key and value, a null value as the empty string |
| URLUtils.MapUnionStep | src/main/java/com/github/acticfox/common/tools/util/URLUtils.java:158 | putting one entry and then the rest is putting the whole map |
| URLUtils.PutPairsAddsMap | src/main/java/com/github/acticfox/common/tools/util/URLUtils.java:154-159 | parsing the encoded pairs puts exactly the map's entries, later duplicates winning |
| URLUtils.PairHasNoAmpersand | src/main/java/com/github/acticfox/common/tools/util/URLUtils.java:61-63 | an encoded pair is non-empty and holds no `&` |
| URLUtils.QueryStringRoundTrip | src/main/java/com/github/acticfox/common/tools/util/URLUtils.java:151-162 | parsing what `formURLEncodeMap` wrote gives the map back, null values as empty strings, when decoding inverts encoding |
| URLUtils.EmptyUnion | src/main/java/com/github/acticfox/common/tools/util/URLUtils.java:152 | the empty map is a left unit of the merge |
| URLUtils.JoinStartsWithFirst | src/main/java/com/github/acticfox/common/tools/util/URLUtils.java:66 | a join is at least as long as its first part |
| URLUtils.ReplaceCharIsSubst | src/main/java/com/github/acticfox/common/tools/util/URLUtils.java:187-189 | replacing a one-character target is substituting that character everywhere |
| URLUtils.SubstAppend | src/main/java/com/github/acticfox/common/tools/util/URLUtils.java:187-189 | substitution distributes over concatenation |
| URLUtils.SubstAbsent | src/main/java/com/github/acticfox/common/tools/util/URLUtils.java:187-189 | substituting an absent character changes nothing |
| URLUtils.SubstsCommute | src/main/java/com/github/acticfox/common/tools/util/URLUtils.java:77-79 | substitutions of different characters, neither producing the other, commute |
| URLUtils.TildeAfterPiece | src/main/java/com/github/acticfox/common/tools/util/URLUtils.java:187-189 | the `%7E` rule passes over an escape that cannot start `%7E` |
| URLUtils.SubstStartsWith7E | src/main/java/com/github/acticfox/common/tools/util/URLUtils.java:42-44 | a `*` or `+` escape never creates a leading `7E` |
| URLUtils.SubstCommutesWithTilde | src/main/java/com/github/acticfox/common/tools/util/URLUtils.java:42-79 | the `*` and `+` rules commute with the `%7E` rule |
| URLUtils.ApplyIsRuleAt | src/main/java/com/github/acticfox/common/tools/util/URLUtils.java:40-46 | the three encoding rules are the substitutions `*`→`%2A`, `+`→`%20`, `%7E`→`~` |
| URLUtils.RulesCommute | src/main/java/com/github/acticfox/common/tools/util/URLUtils.java:40-79 | the three rules commute pairwise |
| URLUtils.PercentEncodeIgnoresOrder | src/main/java/com/github/acticfox/common/tools/util/URLUtils.java:75-81 | `percentEncode` gives the same result whatever order the hash set iterates its rules in |
| URLUtils.SubstRemoves | src/main/java/com/github/acticfox/common/tools/util/URLUtils.java:187-189 | after substitution the character is gone |
| URLUtils.SubstKeepsAbsent | src/main/java/com/github/acticfox/common/tools/util/URLUtils.java:187-189 | substitution introduces no character that was absent from both input and replacement |
| URLUtils.TildeKeepsAbsent | src/main/java/com/github/acticfox/common/tools/util/URLUtils.java:44 | the `%7E` rule introduces nothing but `~` |
| URLUtils.PercentEncodeEscapesStarAndPlus | src/main/java/com/github/acticfox/common/tools/util/URLUtils.java:75-81 | percent-encoded text never holds `*` or `+` |
| URLUtils.UriInput | src/main/java/com/github/acticfox/common/tools/util/URLUtils.java:164-167 | the URI parser always sees an http or https scheme. A URL that already has one, in any case, is kept; otherwise `http://` is put in front, and a null URL becomes `http://null` |
| URLUtils.ParseHost | src/main/java/com/github/acticfox/common/tools/util/URLUtils.java:164-176 | the host the URI parser finds, which may be null, or the empty string when it rejects the URL |
| URLUtils.ParseHostWithSchemeAdded | src/main/java/com/github/acticfox/common/tools/util/URLUtils.java:164-176 | writing the scheme by hand never changes the host |
| URLUtils.NoSchemeAt | src/main/java/com/github/acticfox/common/tools/util/URLUtils.java:165 | a URL differing from both prefixes at one position has no scheme |
| URLUtils.UriInputKeepsScheme | src/main/java/com/github/acticfox/common/tools/util/URLUtils.java:165-166 | worked example: a null URL becomes `http://null`, and an upper-case scheme is recognised |
| URLUtils.UriInputOtherScheme | src/main/java/com/github/acticfox/common/tools/util/URLUtils.java:165-166 | worked example: another scheme is kept behind `http://` |
| URLUtils.UriInputHostNamedHttp | src/main/java/com/github/acticfox/common/tools/util/URLUtils.java:165-166 | worked example: a bare host whose name starts with `http` still gets the prefix |
| IPUtil.NonEmpty | src/main/java/com/github/acticfox/common/tools/util/IPUtil.java:49 | `StringUtils.split` keeps exactly the non-empty pieces |
| IPUtil.ForwardedFor | src/main/java/com/github/acticfox/common/tools/util/IPUtil.java:47-58 | the forwarded-for header is replaced by its first piece only when the whole header is itself an IP literal; otherwise it is used as it is |
| IPUtil.ForwardedForKeepsSingle | src/main/java/com/github/acticfox/common/tools/util/IPUtil.java:47-58 | a header without a comma is used as it is |
| IPUtil.ForwardedForIsIdentity | src/main/java/com/github/acticfox/common/tools/util/IPUtil.java:47-58 | when IP literals hold no commas, the list handling never changes the header |
| IPUtil.GetClientIP | src/main/java/com/github/acticfox/common/tools/util/IPUtil.java:42-70 | the answer is a usable address or the remote address; a usable `NS-Client-IP` header always wins |
| IPUtil.FirstAccepted | src/main/java/com/github/acticfox/common/tools/util/IPUtil.java:44-67 | the first usable candidate, else the fallback; the answer is usable whenever some candidate is |
| IPUtil.GetClientIPPrefersHeaders | src/main/java/com/github/acticfox/common/tools/util/IPUtil.java:42-70 | the client address is the first usable header in the order NS-Client-IP, X-Real-IP, x-forwarded-for, Proxy-Client-IP, WL-Proxy-Client-IP, else the remote address |
| IPUtil.FirstAcceptedSkips | src/main/java/com/github/acticfox/common/tools/util/IPUtil.java:44-67 | an unusable candidate can be left out |
| IPUtil.ForwardedListIsSkipped | src/main/java/com/github/acticfox/common/tools/util/IPUtil.java:47-58 | a forwarded-for list of several addresses is never used: the answer comes from the other headers or the remote address |
| IPUtil.GetAllHostAddress | src/main/java/com/github/acticfox/common/tools/util/IPUtil.java:72-90 | exactly the addresses of all interfaces; a socket failure is rethrown as a RuntimeException with the same message and the original as cause |
| IPUtil.Flatten | src/main/java/com/github/acticfox/common/tools/util/IPUtil.java:77-84 | holds exactly the addresses of the interfaces |
| IPUtil.Ipv4NoLoopback | src/main/java/com/github/acticfox/common/tools/util/IPUtil.java:95-99 | empty iff no address is a non-loopback IPv4 one |
| IPUtil.Ipv4NoLoopbackMembers | src/main/java/com/github/acticfox/common/tools/util/IPUtil.java:95-99 | holds exactly the host addresses of the non-loopback IPv4 addresses |
| IPUtil.Ipv4NoLoopbackAppend | src/main/java/com/github/acticfox/common/tools/util/IPUtil.java:95-99 | filtering keeps order: filtering a concatenation concatenates the filtered parts |
| IPUtil.GetAllIpv4NoLoopbackAddresses | src/main/java/com/github/acticfox/common/tools/util/IPUtil.java:92-102 | fails iff the enumeration fails, and then with a RuntimeException; otherwise exactly the non-loopback IPv4 host addresses |
| IPUtil.GetFirstNoLoopbackAddress | src/main/java/com/github/acticfox/common/tools/util/IPUtil.java:104-109 | the first non-loopback IPv4 address in interface order; with none, the state check throws IllegalStateException with its message |
| IPUtil.FirstKept | src/main/java/com/github/acticfox/common/tools/util/IPUtil.java:95-108 | the first filtered address belongs to the first address kept |

Notes on the rows marked "see the note after this table":

**ThreadPoolFactory.CreateThreadPool.**
- A blank name or a null config throws IllegalArgumentException.
- A cached pool is returned as it is, resized to the configured count when that differs. A resize to 0 or below throws IllegalArgumentException, so hit or miss, the request succeeds iff the count is positive.
- A new pool has equal core and maximum size, a SynchronousQueue and a fresh named thread factory. Its rejection policy is the given one, or `WaitingEnqueuePolicy`.
- Creating a new pool fails, from the JDK constructor, iff the count is not positive.
- The registry gains only that name, and no other entry changes.

**ThreadPoolGroup.Init.**
- The first call sets the initialized flag, even when it then fails.
- Creating the pools fails with IllegalArgumentException iff the thread count is not positive and at least one pool is wanted.
- Otherwise it appends `threadPoolNum` pools named "<group or default>-threadPool-1", and so on.
- A later call changes nothing.

**MultiTaskQueueThreadPool.New.**
- A blank name, a null pool or an empty config list throws IllegalArgumentException.
- Otherwise it succeeds iff each queue name's first config has a positive capacity.
- There is one empty queue per distinct name, with the first config's capacity.
- There is one consumer per queue, and the consumers have distinct names.

**MultiTaskQueueThreadPoolFactory.CreateMultiTaskQueueThreadPool.**
- A blank name or a null config throws IllegalArgumentException and changes nothing.
- Otherwise the shared pool is created or resized first.
- A cached dispatcher is then returned. If there is none, a new one is built and cached.

Behaviours of the code as written that the model keeps:

- **PropertyUtil.** A two-key reference cycle in `getProperty` never returns (`TwoCycleLoops`).
- **URLUtils.** `queryStringToMap("=")` throws.
- **IPUtil.** The forwarded-for loop tests the whole header rather than each piece, so with an IP test that rejects commas a forwarded-for list is never used (`ForwardedListIsSkipped`).
- **RequestMerger.** A merge count of 0 or below makes the consumer fire an empty batch on every iteration.
- **ThreadPoolFactory.** A cached pool asked for a count of 0 or below throws IllegalArgumentException from the resize, as a new pool does from the constructor.
- **ThreadPoolGroup.** After an `init` that failed on a thread count of 0 or below, or with a pool count of 0 or below, the group is initialized but has no pool at the selected index, so `process` and `execute` throw IndexOutOfBoundsException.

## Left out

- **Concurrency.**
  - Not modelled: threads, `AtomicInteger`/`AtomicBoolean` compare-and-set retries, `synchronized` double-checked locking, `LockSupport` parking and thread interruption.
  - Every operation is modelled for a single caller. A blocking `put`/`take`/`offer`-with-timeout is reported as "must wait" or as a refused offer.
- **Logging.** Logging and `System.err` output are not modelled. They have no effect on results.
- **Numeric limits.**
  - Java `int`/`long` overflow of counters and times is not modelled. This covers the thread-name counter, the round-robin index and `System.currentTimeMillis()` differences.
  - Integers are unbounded.
- ThreadPoolFactory.CreateThreadPool: The resize follows the JDK 8 checks: `setCorePoolSize` refuses a negative count and `setMaximumPoolSize` a count of 0 or below, both with IllegalArgumentException. Two JDK details are not modelled. First, for a count of exactly 0 the JDK has already set the core size to 0 before `setMaximumPoolSize` throws, while the model leaves the registry unchanged on that error. Second, on JDK 9 and later `setCorePoolSize` also refuses a count above the current maximum, so growing a cached pool throws there, while the model grows it.
- **Task rejection.** The executor's own task execution and rejection, including `WaitingEnqueuePolicy`, are not modelled. `WaitingEnqueuePolicy` is not part of this model.
- MultiTaskQueueThreadPool.New: When a later config fails, the consumer threads already started for earlier configs are not modelled. The error is returned and the threads are not.
- **MultiTaskQueueThreadPool getters.** `GetPoolSize`, `GetCorePoolSize`, `GetPoolActiveCount`, `GetMaximumPoolSize` and `GetThreadPoolName` are plain reads of the registry entry and carry no contract.
- **Null arguments.** Null pool names, null queue names and null requests to the queues are not modelled. The model takes them as present, except where the code checks for null.
- **Spring wiring.**
  - `AppContextListener` is a Spring adapter that forwards the two events to the broadcasts.
  - `ConcreteContextListener` and `ThreadPoolConfig` are interfaces.
  - Listeners are modelled as `AbstractStarter`s, the only implementation in the core.
- **PropertyUtil.**
  - `getPropertyOfInt` and `getPropertyOfBoolean` are left out. They are JDK number and boolean parsing.
  - `overrideProperties` reads JVM system properties.
  - The static initializer is not modelled. It is `load` of the default file followed by `addPropertyFile` for each numbered key.
  - The class-loader I/O of `readPropertyFile` and `loadProperties` is an input: the resources the class loader finds, by name. `loadProperties` tries the context class loader and then the class's own `/`-rooted lookup; both are modelled as the same resource map. The `IOException` paths of `loadProperties`, which also give null, are not modelled.
  - `ExceptionUtil` is not part of this model.
- PropertyUtil.Parent: Handles Unix paths in normal form only. It does not model Windows separators or the path normalisation of `java.io.File`.
- Strings.Less: Key order compares characters as Unicode scalar values. This matches `String.compareTo` for text in the Basic Multilingual Plane; Java compares surrogate code units for supplementary characters, which orders differently.
- **URLUtils codecs.**
  - `URLEncoder`, `URLDecoder`, `java.net.URI` and Guava's `InetAddresses.isInetAddress` are parameters.
  - `formURLEncode` and `formURLDecode` are those parameters directly.
  - Their `UnsupportedEncodingException` path cannot occur for UTF-8.
- URLUtils.SameIgnoringCase: Case-insensitive matching is stated only for the characters of the two scheme prefixes, which is all `parseHost` compares.
- **IPUtil.** `getLocalHostName` and `getLocalIp` are host-name lookups with no logic beyond a catch that returns the empty string.
