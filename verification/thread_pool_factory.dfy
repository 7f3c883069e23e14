/** The process-wide registry of named worker pools: get-or-create by name,
    with the worker count re-read from the configuration on every request and
    applied to a cached pool in place.

    A pool is a value held in the registry map; since entries are never
    removed or replaced by another pool, a pool's name is its identity, and
    other components refer to a pool by that name. */
module ThreadPoolFactory {
  import opened Wrappers
  import opened Throwables
  import opened Strings
  import NamedThreadFactory

  /** The rejection handler: the toolkit's blocking default, or one supplied by the caller. */
  datatype RejectPolicy = WaitingEnqueuePolicy | CustomPolicy(id: nat)

  /** One `ThreadPoolExecutor` over a fair `SynchronousQueue`. `poolSize` and
      `activeCount` are the live and busy thread counts the executor reports;
      the model never changes them. */
  datatype Pool = Pool(
    name: string,
    corePoolSize: int,
    maximumPoolSize: int,
    poolSize: nat,
    activeCount: nat,
    policy: RejectPolicy,
    threadFactory: NamedThreadFactory.Factory,
    isShutdown: bool)

  /** `ThreadPoolConfig.getThreadNum`: the configured worker count per pool name. */
  type Config = string -> int

  type Registry = map<string, Pool>

  /** Every entry is filed under its own name and has a positive core size
      equal to its max size. */
  ghost predicate Valid(reg: Registry) {
    forall n :: n in reg ==> reg[n].name == n && reg[n].corePoolSize == reg[n].maximumPoolSize
                             && reg[n].maximumPoolSize > 0
  }

  /** `updateThreadNumDynamically`: both sizes follow the configured count
      when it differs from the current maximum; otherwise nothing changes.
      `setCorePoolSize` refuses a negative count and `setMaximumPoolSize` a
      count that is not positive, so a count of 0 or below is refused. */
  function UpdateThreadNumDynamically(name: string, config: Config, pool: Pool): Result<Pool, Throwable> {
    var configured := config(name);
    if configured == pool.maximumPoolSize then Ok(pool)
    else if configured <= 0 then Err(Raise(IllegalArgumentException, ""))
    else Ok(pool.(corePoolSize := configured, maximumPoolSize := configured))
  }

  /** A successful request: the registry afterwards and the pool returned. */
  datatype Created = Created(registry: Registry, pool: Pool)

  /** `createThreadPool(name, config, handler)`. Blank names and a missing
      configuration are rejected. A registered name returns its pool, resized
      to the configured count; the handler is then ignored. An unregistered
      name gets a new pool with core = max = the configured count, which the
      executor's constructor refuses when it is not positive. */
  function CreateThreadPool(reg: Registry, name: string, config: Option<Config>, handler: Option<RejectPolicy>)
    : (r: Result<Created, Throwable>)
    requires Valid(reg)
    ensures IsBlank(name) || config.None? ==> r.Err?
    ensures r.Err? ==> r.error.cls == IllegalArgumentException
    ensures r.Ok? ==> Valid(r.value.registry)
    ensures r.Ok? ==> name in r.value.registry && r.value.registry[name] == r.value.pool
    ensures r.Ok? ==> r.value.registry.Keys == reg.Keys + {name}
    ensures r.Ok? ==> forall n :: n in reg && n != name ==> r.value.registry[n] == reg[n]
    ensures r.Ok? ==> r.value.pool.corePoolSize == r.value.pool.maximumPoolSize == config.value(name)
    // hit or miss, the executor accepts only a positive count
    ensures !IsBlank(name) && config.Some? ==> (r.Ok? <==> config.value(name) > 0)
    // a cache hit keeps everything but the sizes, and keeps even those when they already match
    ensures !IsBlank(name) && config.Some? && name in reg && r.Ok? ==>
              r.value.pool == reg[name].(corePoolSize := config.value(name),
                                         maximumPoolSize := config.value(name))
    ensures !IsBlank(name) && config.Some? && name in reg && config.value(name) == reg[name].maximumPoolSize ==>
              r.Ok? && r.value.pool == reg[name] && r.value.registry == reg
    // a miss creates a fresh pool
    ensures name !in reg && r.Ok? ==>
              && r.value.pool.name == name
              && r.value.pool.policy == handler.GetOr(WaitingEnqueuePolicy)
              && r.value.pool.threadFactory == NamedThreadFactory.New(name)
              && r.value.pool.poolSize == 0 && r.value.pool.activeCount == 0
              && !r.value.pool.isShutdown
  {
    if IsBlank(name) then Err(Raise(IllegalArgumentException, "threadPoolName is null"))
    else if config.None? then Err(Raise(IllegalArgumentException, "threadPoolConfig is null"))
    else if name in reg then
      match UpdateThreadNumDynamically(name, config.value, reg[name])
      case Err(e) => Err(e)
      case Ok(pool) => Ok(Created(reg[name := pool], pool))
    else
      var initThreadNum := config.value(name);
      if initThreadNum <= 0 then Err(Raise(IllegalArgumentException, ""))
      else
        var pool := Pool(name, initThreadNum, initThreadNum, 0, 0, handler.GetOr(WaitingEnqueuePolicy),
                         NamedThreadFactory.New(name), false);
        Ok(Created(reg[name := pool], pool))
  }

  /** Asking twice for one name with an unchanged configuration returns the
      same pool both times and leaves the registry as the first call left it. */
  lemma SecondRequestReturnsSamePool(reg: Registry, name: string, config: Config,
                                     h1: Option<RejectPolicy>, h2: Option<RejectPolicy>)
    requires Valid(reg)
    requires CreateThreadPool(reg, name, Some(config), h1).Ok?
    ensures var first := CreateThreadPool(reg, name, Some(config), h1).value;
            var second := CreateThreadPool(first.registry, name, Some(config), h2);
            second.Ok? && second.value.pool == first.pool && second.value.registry == first.registry
  {
  }

  /** A later request resizes the same registered pool in place when the new
      count is positive, changing only its two sizes; it is refused otherwise. */
  lemma ResizeKeepsIdentity(reg: Registry, name: string, c1: Config, c2: Config)
    requires Valid(reg)
    requires CreateThreadPool(reg, name, Some(c1), None).Ok?
    ensures var first := CreateThreadPool(reg, name, Some(c1), None).value;
            var second := CreateThreadPool(first.registry, name, Some(c2), None);
            && (second.Ok? <==> c2(name) > 0)
            && (second.Ok? ==>
                  && second.value.pool == first.pool.(corePoolSize := c2(name), maximumPoolSize := c2(name))
                  && second.value.registry.Keys == first.registry.Keys)
  {
  }
}
