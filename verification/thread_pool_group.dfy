/** A group of N registry pools behind a round-robin selector.

    The group is configured through setters, then `init` creates its pools
    once; operations before `init` and setters after it are refused. Pools are
    held by name (their registry identity). The selector's compare-and-swap
    retry loop is modelled for one caller at a time, where it never retries. */
module ThreadPoolGroup {
  import opened Wrappers
  import opened Throwables
  import opened Strings
  import TPF = ThreadPoolFactory
  import TPU = ThreadPoolUtil
  import CR = CallResult

  const DEFAULT_GROUP_NAME: string := "defaultGroupName"

  datatype Group = Group(
    threadPoolNum: int,
    threadNumPerThreadPool: int,
    groupName: Option<string>,
    pools: seq<string>,
    currIndex: int,
    initialized: bool)

  /** A fresh group: one pool of one thread, selector before the first index. */
  function NewGroup(): Group {
    Group(1, 1, None, [], -1, false)
  }

  // ---------------------------------------------------------------------------
  // configuration

  /** The group name as Java string concatenation renders it. */
  function ShownName(g: Group): string {
    if g.groupName.None? then "null" else g.groupName.value
  }

  function NotInitializedError(g: Group): Throwable {
    Raise(IllegalStateException, "ThreadPoolGroup " + ShownName(g) + " is initialized, operation not supported")
  }

  function SetThreadPoolNum(g: Group, n: int): (r: Result<Group, Throwable>)
    ensures r.Err? <==> g.initialized
    ensures r.Err? ==> r.error.cls == IllegalStateException
    ensures r.Ok? ==> r.value == g.(threadPoolNum := n)
  {
    if g.initialized then Err(NotInitializedError(g)) else Ok(g.(threadPoolNum := n))
  }

  function SetThreadNumPerThreadPool(g: Group, n: int): (r: Result<Group, Throwable>)
    ensures r.Err? <==> g.initialized
    ensures r.Err? ==> r.error.cls == IllegalStateException
    ensures r.Ok? ==> r.value == g.(threadNumPerThreadPool := n)
  {
    if g.initialized then Err(NotInitializedError(g)) else Ok(g.(threadNumPerThreadPool := n))
  }

  function SetGroupName(g: Group, name: Option<string>): (r: Result<Group, Throwable>)
    ensures r.Err? <==> g.initialized
    ensures r.Err? ==> r.error.cls == IllegalStateException
    ensures r.Ok? ==> r.value == g.(groupName := name)
  {
    if g.initialized then Err(NotInitializedError(g)) else Ok(g.(groupName := name))
  }

  // ---------------------------------------------------------------------------
  // init

  /** The group name used for pool names: the default when unset or blank. */
  function BaseName(g: Group): string {
    if g.groupName.None? || IsBlank(g.groupName.value) then DEFAULT_GROUP_NAME else g.groupName.value
  }

  /** The name of the pool at 0-based position n. */
  function PoolName(base: string, n: nat): string {
    base + "-threadPool-" + NatToString(n + 1)
  }

  lemma PoolNameNotBlank(base: string, n: nat)
    ensures !IsBlank(PoolName(base, n))
  {
    assert PoolName(base, n)[|base|] == '-';
    NotBlankWhenHoldsMark(PoolName(base, n), |base|);
  }

  lemma PoolNamesDistinct(base: string, a: nat, b: nat)
    requires a != b
    ensures PoolName(base, a) != PoolName(base, b)
  {
    PrefixedNumbersDistinct(base + "-threadPool-", a + 1, b + 1);
  }

  /** The registry config that `createThreadPoolExecutor` passes: the same count for every name. */
  function FixedCount(threadNum: int): TPF.Config {
    (_: string) => threadNum
  }

  /** Requests pools `from` .. `count`-1 from the registry in order; with a
      positive count every request succeeds. */
  function CreatePools(reg: TPF.Registry, base: string, threadNum: int, from: nat, count: nat)
    : (r: (TPF.Registry, seq<string>))
    requires TPF.Valid(reg) && from <= count && threadNum > 0
    ensures TPF.Valid(r.0)
    ensures |r.1| == count - from
    ensures forall i :: 0 <= i < count - from ==> r.1[i] == PoolName(base, from + i)
    decreases count - from
  {
    if from == count then (reg, [])
    else
      var name := PoolName(base, from);
      PoolNameNotBlank(base, from);
      var c := TPF.CreateThreadPool(reg, name, Some(FixedCount(threadNum)), None);
      var rest := CreatePools(c.value.registry, base, threadNum, from + 1, count);
      var names := [name] + rest.1;
      assert forall i :: 0 < i < |names| ==> names[i] == rest.1[i - 1];
      (rest.0, names)
  }

  /** The pools created are registered with `threadNum` workers, and no
      other registry entry is touched. */
  lemma {:induction false} CreatePoolsEffect(reg: TPF.Registry, base: string, threadNum: int, from: nat, count: nat)
    requires TPF.Valid(reg) && from <= count && threadNum > 0
    ensures var reg2, names := CreatePools(reg, base, threadNum, from, count).0,
                               CreatePools(reg, base, threadNum, from, count).1;
            && (forall n :: n in reg2 <==> n in reg || n in names)
            && (forall n :: n in names ==> n in reg2 && reg2[n].maximumPoolSize == threadNum)
            && (forall n :: n in reg && n !in names ==> reg2[n] == reg[n])
    decreases count - from
  {
    if from < count {
      var name := PoolName(base, from);
      PoolNameNotBlank(base, from);
      var c := TPF.CreateThreadPool(reg, name, Some(FixedCount(threadNum)), None);
      CreatePoolsEffect(c.value.registry, base, threadNum, from + 1, count);
      var (reg2, rest) := CreatePools(c.value.registry, base, threadNum, from + 1, count);
      LaterPoolNamesDiffer(base, from, rest, count);
      assert CreatePools(reg, base, threadNum, from, count) == (reg2, [name] + rest);
    }
  }

  lemma LaterPoolNamesDiffer(base: string, from: nat, rest: seq<string>, count: nat)
    requires |rest| == count - (from + 1)
    requires forall i :: 0 <= i < |rest| ==> rest[i] == PoolName(base, from + 1 + i)
    ensures PoolName(base, from) !in rest
  {
    forall i | 0 <= i < |rest|
      ensures rest[i] != PoolName(base, from)
    {
      PoolNamesDistinct(base, from + 1 + i, from);
    }
  }

  /** What a state-changing group operation leaves behind. */
  datatype Step = Step(group: Group, registry: TPF.Registry, error: Option<Throwable>)

  /** `init`: one-shot. The first call sets the flag, then creates
      `threadPoolNum` pools "<group>-threadPool-1" .. "-N" of
      `threadNumPerThreadPool` threads each; a non-positive thread count is
      refused at the first pool, after the flag is already set. */
  function Init(g: Group, reg: TPF.Registry): (r: Step)
    requires TPF.Valid(reg)
    ensures TPF.Valid(r.registry)
    ensures g.initialized ==> r == Step(g, reg, None)
    ensures r.group.initialized
    ensures !g.initialized ==> r.group == g.(initialized := true, pools := r.group.pools)
    ensures |g.pools| <= |r.group.pools| && r.group.pools[..|g.pools|] == g.pools
    ensures !g.initialized && g.threadPoolNum >= 1 && g.threadNumPerThreadPool <= 0 ==>
              r.error.Some? && r.error.value.cls == IllegalArgumentException
              && r.group.pools == g.pools && r.registry == reg
    ensures !g.initialized && (g.threadPoolNum <= 0 || g.threadNumPerThreadPool > 0) ==>
              r.error.None?
              && |r.group.pools| == |g.pools| + (if g.threadPoolNum <= 0 then 0 else g.threadPoolNum)
              && (forall i :: |g.pools| <= i < |r.group.pools| ==>
                    r.group.pools[i] == PoolName(BaseName(g), i - |g.pools|))
  {
    if g.initialized then Step(g, reg, None)
    else
      var g1 := g.(initialized := true);
      if g.threadPoolNum <= 0 then Step(g1, reg, None)
      else if g.threadNumPerThreadPool <= 0 then
        Step(g1, reg, Some(Raise(IllegalArgumentException, "threadNum must be greater than zero")))
      else
        var created := CreatePools(reg, BaseName(g), g.threadNumPerThreadPool, 0, g.threadPoolNum);
        Step(g1.(pools := g.pools + created.1), created.0, None)
  }

  /** The pools `init` adds are registered with the configured worker count,
      and no other registry entry changes. */
  lemma InitRegistersPools(g: Group, reg: TPF.Registry)
    requires TPF.Valid(reg) && !g.initialized && g.threadPoolNum >= 1 && g.threadNumPerThreadPool > 0
    ensures var r := Init(g, reg);
            var added := r.group.pools[|g.pools|..];
            && (forall n :: n in r.registry <==> n in reg || n in added)
            && (forall n :: n in added ==> r.registry[n].maximumPoolSize == g.threadNumPerThreadPool)
            && (forall n :: n in reg && n !in added ==> r.registry[n] == reg[n])
  {
    CreatePoolsEffect(reg, BaseName(g), g.threadNumPerThreadPool, 0, g.threadPoolNum);
    var created := CreatePools(reg, BaseName(g), g.threadNumPerThreadPool, 0, g.threadPoolNum);
    var g1 := g.(initialized := true);
    assert Init(g, reg) == Step(g1.(pools := g.pools + created.1), created.0, None);
    assert (g.pools + created.1)[|g.pools|..] == created.1;
    var r := Init(g, reg);
    assert r.registry == created.0;
    assert r.group.pools[|g.pools|..] == created.1;
    assert forall n :: n in r.registry <==> n in reg || n in created.1;
    assert forall n :: n in created.1 ==> r.registry[n].maximumPoolSize == g.threadNumPerThreadPool;
    assert forall n :: n in reg && n !in created.1 ==> r.registry[n] == reg[n];
  }

  /** A second `init` changes nothing, and after `init` every setter throws. */
  lemma InitIsOneShot(g: Group, reg: TPF.Registry, n: int, name: Option<string>)
    requires TPF.Valid(reg)
    ensures var s := Init(g, reg);
            && Init(s.group, s.registry) == Step(s.group, s.registry, None)
            && SetThreadPoolNum(s.group, n).Err?
            && SetThreadNumPerThreadPool(s.group, n).Err?
            && SetGroupName(s.group, name).Err?
  {
  }

  // ---------------------------------------------------------------------------
  // round-robin selection

  /** `fetchIndex` for a single caller: increment, and wrap to 0 on reaching
      the pool count. */
  function FetchIndex(g: Group): (r: (Group, int))
    ensures r.0 == g.(currIndex := r.1)
    ensures g.threadPoolNum >= 1 && -1 <= g.currIndex < g.threadPoolNum ==> 0 <= r.1 < g.threadPoolNum
  {
    var current := g.currIndex + 1;
    if current >= g.threadPoolNum then (g.(currIndex := 0), 0) else (g.(currIndex := current), current)
  }

  /** The indices handed out by `k` successive selections. */
  function FetchIndices(g: Group, k: nat): (r: (Group, seq<int>))
    ensures |r.1| == k
    decreases k
  {
    if k == 0 then (g, [])
    else
      var (g1, i) := FetchIndex(g);
      var (g2, rest) := FetchIndices(g1, k - 1);
      (g2, [i] + rest)
  }

  lemma MulAtLeast(n: int, d: int)
    requires n >= 1 && d >= 1
    ensures n * d >= n
  {
  }

  lemma ModUnique(a: int, n: int, q: int, r: int)
    requires n >= 1 && 0 <= r < n && a == n * q + r
    ensures a % n == r
  {
    var q0, r0 := a / n, a % n;
    assert a == n * q0 + r0;
    assert n * (q - q0) == r0 - r;
    if q - q0 >= 1 {
      MulAtLeast(n, q - q0);
    } else if q0 - q >= 1 {
      MulAtLeast(n, q0 - q);
    }
  }

  /** Reducing the left summand first does not change a remainder. */
  lemma ModAddLeft(x: nat, y: nat, n: int)
    requires n >= 1
    ensures ((x % n) + y) % n == (x + y) % n
  {
    var q1, r1 := x / n, x % n;
    var q2, r2 := (r1 + y) / n, (r1 + y) % n;
    assert r1 + y == n * q2 + r2;
    assert x + y == n * (q1 + q2) + r2;
    ModUnique(x + y, n, q1 + q2, r2);
  }

  /** With one caller and N >= 1 pools, successive selections continue the
      cycle 0, 1, .., N-1, 0, .. from the current counter. */
  lemma {:induction false} RoundRobinCycle(g: Group, k: nat)
    requires g.threadPoolNum >= 1 && -1 <= g.currIndex < g.threadPoolNum
    ensures forall i :: 0 <= i < k ==> FetchIndices(g, k).1[i] == (g.currIndex + 1 + i) % g.threadPoolNum
    ensures forall i :: 0 <= i < k ==> 0 <= FetchIndices(g, k).1[i] < g.threadPoolNum
    decreases k
  {
    if k > 0 {
      var n := g.threadPoolNum;
      var (g1, first) := FetchIndex(g);
      if g.currIndex + 1 < n {
        ModUnique(g.currIndex + 1, n, 0, g.currIndex + 1);
      } else {
        ModUnique(g.currIndex + 1, n, 1, 0);
      }
      assert first == (g.currIndex + 1) % n;
      RoundRobinCycle(g1, k - 1);
      var rest := FetchIndices(g1, k - 1).1;
      assert FetchIndices(g, k).1 == [first] + rest;
      forall i | 1 <= i < k
        ensures FetchIndices(g, k).1[i] == (g.currIndex + 1 + i) % n
      {
        assert FetchIndices(g, k).1[i] == rest[i - 1];
        ModAddLeft(g.currIndex + 1, i, n);
      }
    }
  }

  /** From a fresh group's counter, the j-th selection picks pool j mod N. */
  lemma RoundRobinFromStart(g: Group, k: nat)
    requires g.threadPoolNum >= 1 && g.currIndex == -1
    ensures forall j :: 0 <= j < k ==> FetchIndices(g, k).1[j] == j % g.threadPoolNum
  {
    RoundRobinCycle(g, k);
  }

  // ---------------------------------------------------------------------------
  // operations

  /** The result of `process`/`execute`: the group afterwards (its counter may
      have moved), the pool the work ran on, and the value or the exception. */
  datatype Dispatched<T> = Dispatched(group: Group, pool: Option<string>, result: Result<T, Throwable>)

  function NotReadyError(g: Group): Throwable {
    Raise(IllegalStateException, "ThreadPoolGroup " + ShownName(g) + " is not initialized, operation not supported")
  }

  /** Picks the next pool; `List.get` refuses an index past the pool list. */
  function Select(g: Group): (r: (Group, Result<string, Throwable>))
    requires g.initialized
  {
    var (g1, idx) := FetchIndex(g);
    if 0 <= idx < |g.pools| then (g1, Ok(g.pools[idx]))
    else (g1, Err(Raise(IndexOutOfBoundsException, "Index out of range")))
  }

  /** `process`: runs every wait on one selected pool and re-raises the first failure. */
  function Process<R>(g: Group, gets: seq<TPU.Got<R>>): (r: Dispatched<seq<Option<R>>>)
    ensures !g.initialized ==> r.group == g && r.pool.None? && r.result.Err?
                                && r.result.error.cls == IllegalStateException
    ensures g.initialized ==> r.group == FetchIndex(g).0
    ensures r.pool.Some? ==> (0 <= FetchIndex(g).1 < |g.pools| && r.pool.value == g.pools[FetchIndex(g).1]
                              && r.result == TPU.Processed(gets))
    ensures g.initialized && 0 <= FetchIndex(g).1 < |g.pools| ==> r.pool.Some?
    ensures g.initialized && !(0 <= FetchIndex(g).1 < |g.pools|) ==>
              r.pool.None? && r.result.Err? && r.result.error.cls == IndexOutOfBoundsException
  {
    if !g.initialized then Dispatched(g, None, Err(NotReadyError(g)))
    else match Select(g)
      case (g1, Err(e)) => Dispatched(g1, None, Err(e))
      case (g1, Ok(p)) => Dispatched(g1, Some(p), TPU.Processed(gets))
  }

  /** `execute`: runs every wait on one selected pool and returns all outcomes. */
  function Execute<R>(g: Group, gets: seq<TPU.Got<R>>): (r: Dispatched<seq<CR.CallResult<R>>>)
    ensures !g.initialized ==> r.group == g && r.pool.None? && r.result.Err?
                                && r.result.error.cls == IllegalStateException
    ensures g.initialized ==> r.group == FetchIndex(g).0
    ensures r.pool.Some? ==> (0 <= FetchIndex(g).1 < |g.pools| && r.pool.value == g.pools[FetchIndex(g).1]
                              && r.result == TPU.Outcomes(gets))
    ensures g.initialized && 0 <= FetchIndex(g).1 < |g.pools| ==> r.pool.Some?
    ensures g.initialized && !(0 <= FetchIndex(g).1 < |g.pools|) ==>
              r.pool.None? && r.result.Err? && r.result.error.cls == IndexOutOfBoundsException
  {
    if !g.initialized then Dispatched(g, None, Err(NotReadyError(g)))
    else match Select(g)
      case (g1, Err(e)) => Dispatched(g1, None, Err(e))
      case (g1, Ok(p)) => Dispatched(g1, Some(p), TPU.Outcomes(gets))
  }

  /** `shutdown`: refused before `init`; otherwise shuts down every member pool
      and no other. */
  function Shutdown(g: Group, reg: TPF.Registry): (r: Result<TPF.Registry, Throwable>)
    requires forall i :: 0 <= i < |g.pools| ==> g.pools[i] in reg
    ensures r.Err? <==> !g.initialized
    ensures r.Err? ==> r.error.cls == IllegalStateException
    ensures r.Ok? ==> r.value.Keys == reg.Keys
    ensures r.Ok? ==> forall i :: 0 <= i < |g.pools| ==> r.value[g.pools[i]] == reg[g.pools[i]].(isShutdown := true)
    ensures r.Ok? ==> forall n :: n in reg && n !in g.pools ==> r.value[n] == reg[n]
  {
    if !g.initialized then Err(NotReadyError(g))
    else Ok(map n | n in reg :: if n in g.pools then reg[n].(isShutdown := true) else reg[n])
  }
}
