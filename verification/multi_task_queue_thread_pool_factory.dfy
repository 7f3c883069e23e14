/** The process-wide cache of queue dispatchers by name. Each request first
    goes to the pool registry for the shared pool of that name (which may
    resize it), and only then looks in the cache. */
module MultiTaskQueueThreadPoolFactory {
  import opened Wrappers
  import opened Throwables
  import opened Strings
  import TPF = ThreadPoolFactory
  import MTQ = MultiTaskQueueThreadPool

  /** The two process-wide maps the factory touches. */
  datatype State<T> = State(registry: TPF.Registry, cache: map<string, MTQ.Dispatcher<T>>)

  /** Every cached dispatcher is filed under its own name, runs on the
      registry pool of that name, and respects its queue capacities. */
  ghost predicate Valid<T>(s: State<T>) {
    && TPF.Valid(s.registry)
    && forall n :: n in s.cache ==>
         && s.cache[n].threadPoolName == n
         && s.cache[n].executor == n
         && n in s.registry
         && MTQ.Valid(s.cache[n])
  }

  datatype Outcome<T> = Outcome(state: State<T>, result: Result<MTQ.Dispatcher<T>, Throwable>)

  /** `createMultiTaskQueueThreadPool`. */
  function CreateMultiTaskQueueThreadPool<T>(s: State<T>, name: string, config: Option<TPF.Config>,
                                             queueConfigs: seq<MTQ.TaskQueueConfig>)
    : (r: Outcome<T>)
    requires Valid(s)
    ensures Valid(r.state)
    ensures r.result.Err? ==> r.result.error.cls == IllegalArgumentException
    // argument checks come first and change nothing
    ensures IsBlank(name) || config.None? ==> r == Outcome(s, r.result) && r.result.Err?
    // the registry is consulted before the cache
    ensures !IsBlank(name) && config.Some? ==>
              match TPF.CreateThreadPool(s.registry, name, config, None)
              case Err(_) => r == Outcome(s, r.result) && r.result.Err?
              case Ok(c) => r.state.registry == c.registry
    // a cached dispatcher is returned as it is, whatever the queue configs
    ensures !IsBlank(name) && config.Some? && name in s.cache && TPF.CreateThreadPool(s.registry, name, config, None).Ok? ==>
              r.result == Ok(s.cache[name]) && r.state.cache == s.cache
    // otherwise a new one is built over the registry pool and cached on success
    ensures !IsBlank(name) && config.Some? && name !in s.cache && TPF.CreateThreadPool(s.registry, name, config, None).Ok? ==>
              && r.result == MTQ.New(name, Some(name), queueConfigs)
              && r.state.cache == (if r.result.Ok? then s.cache[name := r.result.value] else s.cache)
  {
    if IsBlank(name) then Outcome(s, Err(Raise(IllegalArgumentException, "threadPoolName is blank")))
    else if config.None? then Outcome(s, Err(Raise(IllegalArgumentException, "threadPoolConfig is null")))
    else
      match TPF.CreateThreadPool(s.registry, name, config, None)
      case Err(e) => Outcome(s, Err(e))
      case Ok(c) =>
        var s1 := s.(registry := c.registry);
        if name in s.cache then Outcome(s1, Ok(s.cache[name]))
        else
          match MTQ.New<T>(name, Some(name), queueConfigs)
          case Err(e) => Outcome(s1, Err(e))
          case Ok(d) => Outcome(s1.(cache := s.cache[name := d]), Ok(d))
  }

  /** A repeated request returns the cached instance even with an empty queue
      list, and the instance's size getters see the registry's resize; a
      count of 0 or below is refused by the resize and changes nothing. */
  lemma CachedInstanceSeesResize<T>(s: State<T>, name: string, c1: TPF.Config, c2: TPF.Config,
                                    q1: seq<MTQ.TaskQueueConfig>)
    requires Valid(s)
    // the first request succeeds: a usable name and count, and a cached
    // dispatcher or queue configs the constructor accepts
    requires !IsBlank(name) && c1(name) > 0
    requires name in s.cache || MTQ.New<T>(name, Some(name), q1).Ok?
    ensures var first := CreateMultiTaskQueueThreadPool<T>(s, name, Some(c1), q1);
            var second := CreateMultiTaskQueueThreadPool<T>(first.state, name, Some(c2), []);
            && (second.result.Ok? <==> c2(name) > 0)
            && (c2(name) > 0 ==>
                  && second.result == first.result
                  && MTQ.GetMaximumPoolSize(second.result.value, second.state.registry) == c2(name)
                  && MTQ.GetCorePoolSize(second.result.value, second.state.registry) == c2(name))
            && (c2(name) <= 0 ==> second.state == first.state
                                  && second.result.error.cls == IllegalArgumentException)
  {
  }

  /** Without a cached instance, an empty queue list is refused after the
      registry has already created or resized the shared pool. */
  lemma EmptyQueuesRefusedOnlyOnFirstCreation<T>(s: State<T>, name: string, config: TPF.Config)
    requires Valid(s) && !IsBlank(name) && name !in s.cache && name !in s.registry && config(name) > 0
    ensures var r := CreateMultiTaskQueueThreadPool<T>(s, name, Some(config), []);
            && r.result.Err? && r.state.cache == s.cache
            && name in r.state.registry && r.state.registry[name].maximumPoolSize == config(name)
  {
  }
}
