/** The process-wide list of context listeners and the two broadcasts the
    application context triggers. Listeners are the starters of the
    `AbstractStarter` module, held by identity in a map; the list holds
    identities in registration order, duplicates allowed.

    What each listener's hook would raise is an input, by listener identity. */
module ContextListenerManager {
  import opened Wrappers
  import opened Throwables
  import AS = AbstractStarter

  datatype Manager = Manager(listeners: seq<nat>)

  /** `addListener`: appends, keeping order and duplicates. */
  function AddListener(m: Manager, id: nat): (r: Manager)
    ensures r.listeners == m.listeners + [id]
  {
    Manager(m.listeners + [id])
  }

  /** `AbstractStarter.afterPropertiesSet`: a starter registers itself once
      its properties are set. */
  function AfterPropertiesSet(m: Manager, id: nat): (r: Manager)
    ensures |r.listeners| == |m.listeners| + 1
    ensures r.listeners[..|m.listeners|] == m.listeners && r.listeners[|m.listeners|] == id
  {
    AddListener(m, id)
  }

  /** What a broadcast leaves: the starters afterwards, the listeners it
      called (in order), the listeners whose hook actually ran, and an
      `Error` that escaped and ended the broadcast. */
  datatype Broadcast = Broadcast(
    starters: map<nat, AS.Starter>,
    called: seq<nat>,
    ran: seq<nat>,
    escaped: Option<Throwable>)

  function Notify(s: AS.Starter, refresh: bool, o: Option<Throwable>): (r: AS.Reaction)
    ensures r.raised.Some? ==> r.raised == o
  {
    if refresh then AS.OnContextRefreshed(s, o) else AS.OnContextClosed(s, o)
  }

  /** The broadcast loop from position `i`: each listener is called in list
      order; an `Exception` from it is caught and the loop goes on, anything
      else ends the broadcast. */
  function BroadcastFrom(listeners: seq<nat>, i: nat, starters: map<nat, AS.Starter>, refresh: bool,
                         outcome: nat -> Option<Throwable>)
    : (r: Broadcast)
    requires i <= |listeners|
    requires forall k :: 0 <= k < |listeners| ==> listeners[k] in starters
    ensures r.starters.Keys == starters.Keys
    decreases |listeners| - i
  {
    if i == |listeners| then Broadcast(starters, [], [], None)
    else
      var id := listeners[i];
      var reaction := Notify(starters[id], refresh, outcome(id));
      var ran := if reaction.ran.Some? then [id] else [];
      var next := starters[id := reaction.starter];
      assert next.Keys == starters.Keys;
      if reaction.raised.Some? && !IsException(reaction.raised.value.cls) then
        Broadcast(next, [id], ran, reaction.raised)
      else
        var rest := BroadcastFrom(listeners, i + 1, next, refresh, outcome);
        Broadcast(rest.starters, [id] + rest.called, ran + rest.ran, rest.escaped)
  }

  /** One step of the broadcast loop when the listener at `i` lets it go on. */
  lemma BroadcastContinues(listeners: seq<nat>, i: nat, starters: map<nat, AS.Starter>, refresh: bool,
                           outcome: nat -> Option<Throwable>)
    requires i < |listeners|
    requires forall k :: 0 <= k < |listeners| ==> listeners[k] in starters
    requires var o := Notify(starters[listeners[i]], refresh, outcome(listeners[i])).raised;
             !(o.Some? && !IsException(o.value.cls))
    ensures var next := starters[listeners[i] := Notify(starters[listeners[i]], refresh, outcome(listeners[i])).starter];
            var rest := BroadcastFrom(listeners, i + 1, next, refresh, outcome);
            var r := BroadcastFrom(listeners, i, starters, refresh, outcome);
            r.called == [listeners[i]] + rest.called && r.escaped == rest.escaped
  {
  }

  /** The listeners a broadcast calls are a prefix of the list from `i`, all
      of it when nothing escapes. */
  lemma {:induction false} BroadcastCalls(listeners: seq<nat>, i: nat, starters: map<nat, AS.Starter>,
                                          refresh: bool, outcome: nat -> Option<Throwable>)
    requires i <= |listeners|
    requires forall k :: 0 <= k < |listeners| ==> listeners[k] in starters
    ensures var r := BroadcastFrom(listeners, i, starters, refresh, outcome);
            && |r.called| <= |listeners| - i
            && (forall k :: 0 <= k < |r.called| ==> r.called[k] == listeners[i + k])
            && (r.escaped.None? ==> |r.called| == |listeners| - i)
    decreases |listeners| - i
  {
    if i < |listeners| {
      var id := listeners[i];
      var reaction := Notify(starters[id], refresh, outcome(id));
      var r := BroadcastFrom(listeners, i, starters, refresh, outcome);
      if reaction.raised.Some? && !IsException(reaction.raised.value.cls) {
        assert r.called == [id] && r.escaped == reaction.raised;
      } else {
        var next := starters[id := reaction.starter];
        BroadcastContinues(listeners, i, starters, refresh, outcome);
        BroadcastCalls(listeners, i + 1, next, refresh, outcome);
        var rest := BroadcastFrom(listeners, i + 1, next, refresh, outcome);
        ConsShifts(listeners, i, r.called, rest.called);
      }
    }
  }

  /** A prefix of the list from `i + 1`, with the listener at `i` in front,
      is a prefix of the list from `i`. */
  lemma ConsShifts(listeners: seq<nat>, i: nat, called: seq<nat>, rest: seq<nat>)
    requires i < |listeners| && called == [listeners[i]] + rest && |rest| <= |listeners| - i - 1
    requires forall k :: 0 <= k < |rest| ==> rest[k] == listeners[i + 1 + k]
    ensures forall k :: 0 <= k < |called| ==> called[k] == listeners[i + k]
  {
    forall k | 0 < k < |called|
      ensures called[k] == listeners[i + k]
    {
      assert called[k] == rest[k - 1];
    }
  }

  /** A throwable escapes only from the last listener called, and only when
      it is not an `Exception`. */
  lemma {:induction false} BroadcastEscapes(listeners: seq<nat>, i: nat, starters: map<nat, AS.Starter>,
                                            refresh: bool, outcome: nat -> Option<Throwable>)
    requires i <= |listeners|
    requires forall k :: 0 <= k < |listeners| ==> listeners[k] in starters
    ensures var r := BroadcastFrom(listeners, i, starters, refresh, outcome);
            r.escaped.Some? ==> && 1 <= |r.called| <= |listeners| - i
                                && !IsException(r.escaped.value.cls)
                                && outcome(listeners[i + |r.called| - 1]) == r.escaped
    decreases |listeners| - i
  {
    if i < |listeners| {
      var id := listeners[i];
      var reaction := Notify(starters[id], refresh, outcome(id));
      var r := BroadcastFrom(listeners, i, starters, refresh, outcome);
      if reaction.raised.Some? && !IsException(reaction.raised.value.cls) {
        assert r.called == [id] && r.escaped == reaction.raised;
      } else {
        var next := starters[id := reaction.starter];
        BroadcastContinues(listeners, i, starters, refresh, outcome);
        BroadcastEscapes(listeners, i + 1, next, refresh, outcome);
        var rest := BroadcastFrom(listeners, i + 1, next, refresh, outcome);
        assert |r.called| == 1 + |rest.called|;
      }
    }
  }

  /** `onContextRefreshed` / `onContextClosed` over the whole list. */
  function OnContext(m: Manager, starters: map<nat, AS.Starter>, refresh: bool, outcome: nat -> Option<Throwable>)
    : (r: Broadcast)
    requires forall k :: 0 <= k < |m.listeners| ==> m.listeners[k] in starters
    ensures r.starters.Keys == starters.Keys
  {
    BroadcastFrom(m.listeners, 0, starters, refresh, outcome)
  }

  /** The listeners are called in registration order (a close too is not
      reversed); only a non-`Exception` throwable ends the broadcast early,
      and it is what the last listener called raised. */
  lemma OnContextCallsInOrder(m: Manager, starters: map<nat, AS.Starter>, refresh: bool,
                              outcome: nat -> Option<Throwable>)
    requires forall k :: 0 <= k < |m.listeners| ==> m.listeners[k] in starters
    ensures var r := OnContext(m, starters, refresh, outcome);
            && |r.called| <= |m.listeners| && r.called == m.listeners[..|r.called|]
            && (r.escaped.None? ==> r.called == m.listeners)
            && (r.escaped.Some? ==> r.called != [] && !IsException(r.escaped.value.cls)
                                    && outcome(r.called[|r.called| - 1]) == r.escaped)
  {
    BroadcastCalls(m.listeners, 0, starters, refresh, outcome);
    BroadcastEscapes(m.listeners, 0, starters, refresh, outcome);
    var r := OnContext(m, starters, refresh, outcome);
    assert r.called == m.listeners[..|r.called|];
  }

  /** When no hook raises anything but `Exception`s, every listener is called. */
  lemma BroadcastCompletes(m: Manager, starters: map<nat, AS.Starter>, refresh: bool,
                           outcome: nat -> Option<Throwable>)
    requires forall k :: 0 <= k < |m.listeners| ==> m.listeners[k] in starters
    requires forall k :: 0 <= k < |m.listeners| ==>
               outcome(m.listeners[k]).None? || IsException(outcome(m.listeners[k]).value.cls)
    ensures OnContext(m, starters, refresh, outcome).escaped.None?
    ensures OnContext(m, starters, refresh, outcome).called == m.listeners
  {
    OnContextCallsInOrder(m, starters, refresh, outcome);
  }

  /** Within one broadcast each starter's hook runs at most once, however
      often it is registered, and only for starters in the matching state:
      a refresh starts only stopped starters, a close stops only started ones. */
  lemma {:induction false} HookRunsOncePerStarter(listeners: seq<nat>, i: nat, starters: map<nat, AS.Starter>,
                                                  refresh: bool, outcome: nat -> Option<Throwable>)
    requires i <= |listeners|
    requires forall k :: 0 <= k < |listeners| ==> listeners[k] in starters
    ensures forall x :: x in BroadcastFrom(listeners, i, starters, refresh, outcome).ran ==>
              x in starters && starters[x].started != refresh
    ensures RunsDistinct(BroadcastFrom(listeners, i, starters, refresh, outcome).ran)
    decreases |listeners| - i
  {
    if i < |listeners| {
      var id := listeners[i];
      var reaction := Notify(starters[id], refresh, outcome(id));
      if !(reaction.raised.Some? && !IsException(reaction.raised.value.cls)) {
        var s1 := starters[id := reaction.starter];
        HookRunsOncePerStarter(listeners, i + 1, s1, refresh, outcome);
        var rest := BroadcastFrom(listeners, i + 1, s1, refresh, outcome).ran;
        if reaction.ran.Some? {
          assert s1[id].started == refresh;
          assert id !in rest;
          PrependDistinct(id, rest);
          assert BroadcastFrom(listeners, i, starters, refresh, outcome).ran == [id] + rest;
        } else {
          assert s1 == starters;
          assert BroadcastFrom(listeners, i, starters, refresh, outcome).ran == rest;
        }
      }
    }
  }

  predicate RunsDistinct(ran: seq<nat>) {
    forall a, b :: 0 <= a < b < |ran| ==> ran[a] != ran[b]
  }

  lemma PrependDistinct(x: nat, s: seq<nat>)
    requires x !in s && RunsDistinct(s)
    ensures RunsDistinct([x] + s)
  {
    var all := [x] + s;
    forall a, b | 0 <= a < b < |all|
      ensures all[a] != all[b]
    {
      if a == 0 {
        assert all[b] == s[b - 1];
      } else {
        assert all[a] == s[a - 1] && all[b] == s[b - 1];
      }
    }
  }
}
