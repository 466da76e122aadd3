/**
 * The skip-waiting handshake started by a `SKIP_WAITING` message: one
 * immediate `skipWaiting()` call, a completion flag set when that call has
 * settled, and a two-second timer that makes one more call if the flag is
 * still unset when it fires.
 */
module SkipWaiting {

  const WaitSeconds: nat := 2
  /** The delay given to `setTimeout`. */
  const TimeoutMillis: nat := WaitSeconds * 1000

  /** What the host can deliver to a running handshake. */
  datatype Event =
    | FirstCallSettled(succeeded: bool)  // the promise of the first skipWaiting() call settles
    | TimerFired                         // the 2000 ms timer runs its callback

  /**
   * `complete` is the local flag `skippedWaitingComplete`; `timerPending`
   * says the timer has yet to fire; `calls` counts `skipWaiting()` calls.
   */
  datatype State = State(complete: bool, timerPending: bool, calls: nat)

  /** Right after the message is handled: one call made, flag unset, timer armed. */
  const Initial: State := State(false, true, 1)

  function Step(s: State, e: Event): State {
    match e
    // `.catch` comes before `.then`: the flag is set on success and on failure alike.
    case FirstCallSettled(_) => s.(complete := true)
    case TimerFired =>
      if !s.timerPending then s
      else if s.complete then s.(timerPending := false)
      else s.(timerPending := false, calls := s.calls + 1)
  }

  /** The state after the host has delivered `events`, in order. */
  function Run(events: seq<Event>): State
    decreases |events|
  {
    if events == [] then Initial else Step(Run(events[..|events| - 1]), events[|events| - 1])
  }

  ghost predicate HasSettled(events: seq<Event>) {
    exists i :: 0 <= i < |events| && events[i].FirstCallSettled?
  }

  ghost predicate HasFired(events: seq<Event>) {
    exists i :: 0 <= i < |events| && events[i] == TimerFired
  }

  /** The timer fired at a moment when the first call had not yet settled. */
  ghost predicate TimedOut(events: seq<Event>) {
    exists i :: 0 <= i < |events| && events[i] == TimerFired
                && forall j :: 0 <= j < i ==> !events[j].FirstCallSettled?
  }

  lemma SnocFacts(events: seq<Event>, e: Event)
    ensures HasSettled(events + [e]) <==> HasSettled(events) || e.FirstCallSettled?
    ensures HasFired(events + [e]) <==> HasFired(events) || e == TimerFired
    ensures TimedOut(events + [e]) <==> TimedOut(events) || (e == TimerFired && !HasSettled(events))
  {
    var t := events + [e];
    assert forall i :: 0 <= i < |events| ==> t[i] == events[i];
    assert t[|events|] == e;
    if TimedOut(t) && !TimedOut(events) {
      var i :| 0 <= i < |t| && t[i] == TimerFired && forall j :: 0 <= j < i ==> !t[j].FirstCallSettled?;
      assert i == |events|;
    }
    if e == TimerFired && !HasSettled(events) {
      assert t[|events|] == TimerFired && forall j :: 0 <= j < |events| ==> !t[j].FirstCallSettled?;
    }
  }

  /** A timer that fired without timing out found the first call settled. */
  lemma FiredWithoutTimeout(events: seq<Event>)
    requires HasFired(events) && !TimedOut(events)
    ensures HasSettled(events)
  {
    var i :| 0 <= i < |events| && events[i] == TimerFired;
    assert !forall j :: 0 <= j < i ==> !events[j].FirstCallSettled?;
  }

  /**
   * The handshake in closed form: the flag is set once the first call has
   * settled, the timer is pending until it fires, and a second call is made
   * exactly when the timer fired before the first call settled.
   */
  lemma {:induction false} RunSpec(events: seq<Event>)
    ensures Run(events).complete == HasSettled(events)
    ensures Run(events).timerPending == !HasFired(events)
    ensures Run(events).calls == if TimedOut(events) then 2 else 1
    decreases |events|
  {
    if events != [] {
      var init, e := events[..|events| - 1], events[|events| - 1];
      assert events == init + [e];
      RunSpec(init);
      SnocFacts(init, e);
      if e == TimerFired && HasFired(init) && !TimedOut(init) {
        FiredWithoutTimeout(init);
      }
    }
  }

  /** However the host interleaves its events, `skipWaiting()` is called once or twice, never more. */
  lemma CallsBounded(events: seq<Event>)
    ensures 1 <= Run(events).calls <= 2
  {
    RunSpec(events);
  }

  /** The handshake of one `SKIP_WAITING` message. */
  class SkipWaitingHandler {
    var skippedWaitingComplete: bool
    var timerPending: bool
    var skipWaitingCalls: nat
    /** The events delivered so far. */
    ghost var events: seq<Event>

    ghost predicate Valid()
      reads this
    {
      State(skippedWaitingComplete, timerPending, skipWaitingCalls) == Run(events)
    }

    /** Handling the message: the first `skipWaiting()` call is made and the timer armed. */
    constructor ()
      ensures Valid() && events == []
      ensures !skippedWaitingComplete && timerPending && skipWaitingCalls == 1
    {
      skippedWaitingComplete := false;
      timerPending := true;
      skipWaitingCalls := 1;
      events := [];
    }

    method OnFirstCallSettled(succeeded: bool)
      requires Valid()
      modifies this
      ensures Valid() && events == old(events) + [FirstCallSettled(succeeded)]
      ensures skippedWaitingComplete
      ensures timerPending == old(timerPending) && skipWaitingCalls == old(skipWaitingCalls)
    {
      skippedWaitingComplete := true;
      events := events + [FirstCallSettled(succeeded)];
      assert events[..|events| - 1] == old(events);
    }

    /** The timer callback; `retried` tells whether it called `skipWaiting()` again. */
    method OnTimerFired() returns (retried: bool)
      requires Valid()
      modifies this
      ensures Valid() && events == old(events) + [TimerFired]
      ensures retried == (old(timerPending) && !old(skippedWaitingComplete))
      ensures skipWaitingCalls == old(skipWaitingCalls) + (if retried then 1 else 0)
      ensures skipWaitingCalls <= 2
      ensures !timerPending && skippedWaitingComplete == old(skippedWaitingComplete)
    {
      retried := timerPending && !skippedWaitingComplete;
      if retried {
        skipWaitingCalls := skipWaitingCalls + 1;
      }
      timerPending := false;
      events := events + [TimerFired];
      assert events[..|events| - 1] == old(events);
      CallsBounded(events);
    }
  }
}
