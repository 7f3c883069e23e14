/** A component started when the application context is refreshed and shut
    down when it is closed, guarded by a started flag so that each hook runs
    once per transition.

    What the subclass's `start()` and `shutdown()` do is an input: the
    throwable they raise, or `None` when they return normally. */
module AbstractStarter {
  import opened Wrappers
  import opened Throwables

  datatype Starter = Starter(started: bool)

  function NewStarter(): Starter {
    Starter(false)
  }

  /** Which subclass hook a context event ran. */
  datatype Hook = Start | Shutdown

  /** The result of one context event: the starter afterwards, the hook it
      ran (if any) and what that hook raised. */
  datatype Reaction = Reaction(starter: Starter, ran: Option<Hook>, raised: Option<Throwable>)

  /** `onContextRefreshed`: only the not-started to started transition runs
      `start()`, and the flag is set before it runs, so a failing start still
      leaves the starter started. */
  function OnContextRefreshed(s: Starter, startOutcome: Option<Throwable>): (r: Reaction)
    ensures r.starter.started
    ensures r.ran.Some? <==> !s.started
    ensures r.ran.Some? ==> r.ran.value == Start && r.raised == startOutcome
    ensures r.ran.None? ==> r.raised.None?
  {
    if !s.started then Reaction(Starter(true), Some(Start), startOutcome)
    else Reaction(s, None, None)
  }

  /** `onContextClosed`: only the started to not-started transition runs
      `shutdown()`; a close of a starter that is not started does nothing. */
  function OnContextClosed(s: Starter, shutdownOutcome: Option<Throwable>): (r: Reaction)
    ensures !r.starter.started
    ensures r.ran.Some? <==> s.started
    ensures r.ran.Some? ==> r.ran.value == Shutdown && r.raised == shutdownOutcome
    ensures r.ran.None? ==> r.raised.None? && r.starter == s
  {
    if s.started then Reaction(Starter(false), Some(Shutdown), shutdownOutcome)
    else Reaction(s, None, None)
  }

  /** A context event with the outcome its hook would have, if it ran. */
  datatype ContextEvent = Refreshed(startOutcome: Option<Throwable>) | Closed(shutdownOutcome: Option<Throwable>)

  function React(s: Starter, e: ContextEvent): Reaction {
    match e
    case Refreshed(o) => OnContextRefreshed(s, o)
    case Closed(o) => OnContextClosed(s, o)
  }

  /** The hooks run by a sequence of context events, and the starter after them. */
  function RunEvents(s: Starter, events: seq<ContextEvent>): (r: (Starter, seq<Hook>))
    decreases |events|
  {
    if events == [] then (s, [])
    else
      var reaction := React(s, events[0]);
      var rest := RunEvents(reaction.starter, events[1..]);
      (rest.0, (if reaction.ran.Some? then [reaction.ran.value] else []) + rest.1)
  }

  /** The hook that comes `i` places after the current state: from a
      not-started starter Start, Shutdown, Start, ..; from a started one
      Shutdown first. */
  function Expected(started: bool, i: nat): Hook {
    if (i % 2 == 0) == started then Shutdown else Start
  }

  /** Whatever the events and whatever the hooks raise, `start()` and
      `shutdown()` strictly alternate, and every hook run flips the started
      flag: after an even number of hooks the starter is as it was. */
  lemma {:induction false} HooksAlternate(s: Starter, events: seq<ContextEvent>)
    ensures var r := RunEvents(s, events);
            && (forall i :: 0 <= i < |r.1| ==> r.1[i] == Expected(s.started, i))
            && r.0.started == (s.started == (|r.1| % 2 == 0))
    decreases |events|
  {
    if events != [] {
      var reaction := React(s, events[0]);
      HooksAlternate(reaction.starter, events[1..]);
      var rest := RunEvents(reaction.starter, events[1..]);
      var r := RunEvents(s, events);
      assert r.0 == rest.0;
      if reaction.ran.Some? {
        var h := reaction.ran.value;
        assert h == Expected(s.started, 0) && reaction.starter.started == !s.started;
        assert r.1 == [h] + rest.1;
        AlternateCons(s.started, h, rest.1);
      } else {
        assert reaction.starter == s;
        assert r.1 == rest.1;
      }
    }
  }

  /** A hook that fits the state, followed by hooks that alternate from the
      opposite state, alternates from the state. */
  lemma AlternateCons(started: bool, h: Hook, rest: seq<Hook>)
    requires h == Expected(started, 0)
    requires forall i :: 0 <= i < |rest| ==> rest[i] == Expected(!started, i)
    ensures forall i :: 0 <= i < |[h] + rest| ==> ([h] + rest)[i] == Expected(started, i)
  {
    forall i | 0 < i < |[h] + rest|
      ensures ([h] + rest)[i] == Expected(started, i)
    {
      assert ([h] + rest)[i] == rest[i - 1];
      assert (i % 2 == 0) == ((i - 1) % 2 != 0);
    }
  }

  /** From a fresh starter: refreshing twice runs `start()` once; a close
      before any refresh runs nothing; a refresh after a close starts again;
      and a `start()` that throws still leaves the starter started, so the
      next close runs `shutdown()`. */
  lemma StarterScenarios(o1: Option<Throwable>, o2: Option<Throwable>, o3: Option<Throwable>)
    ensures RunEvents(NewStarter(), [Refreshed(o1), Refreshed(o2)]).1 == [Start]
    ensures RunEvents(NewStarter(), [Closed(o1)]) == (NewStarter(), [])
    ensures RunEvents(NewStarter(), [Refreshed(o1), Closed(o2), Refreshed(o3)]).1 == [Start, Shutdown, Start]
    ensures o1.Some? ==> RunEvents(NewStarter(), [Refreshed(o1), Closed(o2)]).1 == [Start, Shutdown]
  {
    assert [Refreshed(o1), Closed(o2)][1..] == [Closed(o2)];
    assert RunEvents(Starter(true), [Closed(o2)]).1 == [Shutdown];
    var up := Starter(true);
    assert [Refreshed(o1), Refreshed(o2)][1..] == [Refreshed(o2)];
    assert RunEvents(up, [Refreshed(o2)]).1 == [];
    var three := [Refreshed(o1), Closed(o2), Refreshed(o3)];
    assert three[1..] == [Closed(o2), Refreshed(o3)];
    assert three[1..][1..] == [Refreshed(o3)];
    assert RunEvents(NewStarter(), [Refreshed(o3)]).1 == [Start];
    assert RunEvents(up, [Closed(o2), Refreshed(o3)]).1 == [Shutdown, Start];
  }
}
