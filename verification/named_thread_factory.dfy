/** Thread naming for the pools of the registry: threads are named
    "<pool>-thread-<n>" with a counter starting at 1, and are made non-daemon
    with normal priority. */
module NamedThreadFactory {
  import opened Strings

  const NORM_PRIORITY: int := 5

  /** What a new thread inherits: the creating thread's daemon flag and
      priority, and the maximum priority of the thread group. */
  datatype Creator = Creator(daemon: bool, priority: int, groupMaxPriority: int)

  datatype Factory = Factory(namePrefix: string, threadNumber: nat)

  datatype Thread = Thread(name: string, daemon: bool, priority: int)

  function New(name: string): Factory {
    Factory(name + "-thread-", 1)
  }

  /** `Thread.setPriority`: a priority above the group's maximum is lowered to it. */
  function SetPriority(p: int, groupMax: int): int {
    if p > groupMax then groupMax else p
  }

  function Min(a: int, b: int): int {
    if a <= b then a else b
  }

  /** `newThread`: names the thread with the current counter value, advances
      the counter, and clears the daemon flag and resets the priority when
      they differ from the wanted ones. */
  function NewThread(f: Factory, c: Creator): (r: (Factory, Thread))
    ensures r.0 == Factory(f.namePrefix, f.threadNumber + 1)
    ensures r.1.name == f.namePrefix + NatToString(f.threadNumber)
    ensures !r.1.daemon
    ensures r.1.priority == Min(NORM_PRIORITY, c.groupMaxPriority)
  {
    var inherited := Thread(f.namePrefix + NatToString(f.threadNumber), c.daemon,
                            SetPriority(c.priority, c.groupMaxPriority));
    var t1 := if inherited.daemon then inherited.(daemon := false) else inherited;
    var t2 := if t1.priority != NORM_PRIORITY
              then t1.(priority := SetPriority(NORM_PRIORITY, c.groupMaxPriority))
              else t1;
    (Factory(f.namePrefix, f.threadNumber + 1), t2)
  }

  /** Creates `k` threads one after another from the same factory. */
  function NewThreads(f: Factory, c: Creator, k: nat): (r: (Factory, seq<Thread>))
    ensures r.0 == Factory(f.namePrefix, f.threadNumber + k)
    ensures |r.1| == k
    ensures forall i :: 0 <= i < k ==>
              r.1[i].name == f.namePrefix + NatToString(f.threadNumber + i)
    ensures forall i :: 0 <= i < k ==> !r.1[i].daemon
    decreases k
  {
    if k == 0 then (f, [])
    else
      var first := NewThread(f, c);
      var rest := NewThreads(first.0, c, k - 1);
      var ts := [first.1] + rest.1;
      assert forall i :: 0 < i < k ==> ts[i] == rest.1[i - 1];
      (rest.0, ts)
  }

  /** The k-th thread of a fresh factory for `name` is "<name>-thread-k";
      every thread is non-daemon, and has normal priority whenever the thread
      group allows it (the JVM's default groups allow priority 10). */
  lemma FreshFactoryNaming(name: string, c: Creator, k: nat)
    ensures forall i :: 0 <= i < k ==>
              NewThreads(New(name), c, k).1[i].name == name + "-thread-" + NatToString(i + 1)
    ensures c.groupMaxPriority >= NORM_PRIORITY ==>
              NewThread(New(name), c).1.priority == NORM_PRIORITY
  {
  }

  /** Threads made by one factory have pairwise distinct names. */
  lemma ThreadNamesDistinct(f: Factory, c: Creator, k: nat)
    ensures forall i, j :: 0 <= i < j < k ==> NewThreads(f, c, k).1[i].name != NewThreads(f, c, k).1[j].name
  {
    var ts := NewThreads(f, c, k).1;
    forall i, j | 0 <= i < j < k
      ensures ts[i].name != ts[j].name
    {
      PrefixedNumbersDistinct(f.namePrefix, f.threadNumber + i, f.threadNumber + j);
    }
  }
}
