/** What the world's steps amount to over a run, and runs that reach every outcome. */
module LifecycleRuns {
  import opened Wrappers
  import opened Lifecycle

  // ----- counting steps -----

  function Count(steps: seq<Step>, step: Step): nat {
    if steps == [] then 0
    else Count(steps[..|steps| - 1], step) + if steps[|steps| - 1] == step then 1 else 0
  }

  /** Cancellation, time, connections and requests are what the steps made of them. */
  predicate IsWorldOf(s: State, steps: seq<Step>) {
    IsClockOf(s, steps) && IsTrafficOf(s, steps)
  }

  predicate IsClockOf(s: State, steps: seq<Step>) {
    (s.cancelled <==> Cancel in steps) && s.now == Count(steps, Tick) && s.sent == Count(steps, Send)
  }

  predicate IsTrafficOf(s: State, steps: seq<Step>) {
    && s.active + Count(steps, EndRequest) == Count(steps, BeginRequest)
    && (Close !in steps ==> s.open + Count(steps, Disconnect) == Count(steps, Accept))
  }

  lemma CountNext(steps: seq<Step>, step: Step, x: Step)
    ensures Count(steps + [step], x) == Count(steps, x) + if step == x then 1 else 0
    ensures x in steps + [step] <==> x in steps || x == step
  {
    assert (steps + [step])[..|steps|] == steps;
  }

  lemma ClockNext(timeout: nat, s: State, steps: seq<Step>, step: Step)
    requires IsClockOf(s, steps) && Enabled(s, step)
    ensures IsClockOf(Do(timeout, s, step), steps + [step])
  {
    CountNext(steps, step, Cancel);
    CountNext(steps, step, Tick);
    CountNext(steps, step, Send);
  }

  lemma TrafficNext(timeout: nat, s: State, steps: seq<Step>, step: Step)
    requires IsTrafficOf(s, steps) && Enabled(s, step)
    ensures IsTrafficOf(Do(timeout, s, step), steps + [step])
  {
    CountNext(steps, step, EndRequest);
    CountNext(steps, step, BeginRequest);
    CountNext(steps, step, Disconnect);
    CountNext(steps, step, Accept);
    CountNext(steps, step, Close);
  }

  lemma WorldNext(timeout: nat, s: State, steps: seq<Step>, step: Step)
    requires IsWorldOf(s, steps) && Enabled(s, step)
    ensures IsWorldOf(Do(timeout, s, step), steps + [step])
  {
    ClockNext(timeout, s, steps, step);
    TrafficNext(timeout, s, steps, step);
  }

  // ----- runs by their steps -----

  /** The state after the steps, if each of them can be taken. */
  function After(timeout: nat, steps: seq<Step>): Option<State> {
    if steps == [] then Some(INIT)
    else
      var (before, last) := (After(timeout, steps[..|steps| - 1]), steps[|steps| - 1]);
      if before.None? || !Enabled(before.value, last) then None else Some(Do(timeout, before.value, last))
  }

  lemma RunNext(timeout: nat, states: seq<State>, steps: seq<Step>, step: Step)
    requires IsRun(timeout, states, steps) && Enabled(states[|steps|], step)
    ensures IsRun(timeout, states + [Do(timeout, states[|steps|], step)], steps + [step])
  {
    var (ss, ts) := (states + [Do(timeout, states[|steps|], step)], steps + [step]);
    forall i {:trigger ts[i]} | 0 <= i < |ts| ensures Enabled(ss[i], ts[i]) && ss[i + 1] == Do(timeout, ss[i], ts[i]) {
      if i < |steps| { assert ts[i] == steps[i]; }
    }
  }

  lemma {:induction false} AfterIsReached(timeout: nat, steps: seq<Step>) returns (states: seq<State>)
    requires After(timeout, steps).Some?
    ensures IsRun(timeout, states, steps) && states[|steps|] == After(timeout, steps).value
  {
    if steps == [] {
      return [INIT];
    }
    var (init, last) := (steps[..|steps| - 1], steps[|steps| - 1]);
    states := AfterIsReached(timeout, init);
    RunNext(timeout, states, init, last);
    states := states + [Do(timeout, states[|init|], last)];
    assert steps == init + [last];
  }

  /** The run with these steps ends in the state after them. */
  lemma {:induction false} RunIsAfter(timeout: nat, states: seq<State>, steps: seq<Step>)
    requires IsRun(timeout, states, steps)
    ensures After(timeout, steps) == Some(states[|steps|])
  {
    if steps != [] {
      var n := |steps| - 1;
      assert IsRun(timeout, states[..n + 1], steps[..n]) by {
        assert forall i :: 0 <= i < n ==> steps[..n][i] == steps[i];
      }
      RunIsAfter(timeout, states[..n + 1], steps[..n]);
      assert Enabled(states[n], steps[n]);
    }
  }

  /** Whatever the steps, the state is the world they made. */
  lemma {:induction false} WorldExactly(timeout: nat, steps: seq<Step>)
    requires After(timeout, steps).Some?
    ensures IsWorldOf(After(timeout, steps).value, steps)
  {
    if steps != [] {
      var (init, last) := (steps[..|steps| - 1], steps[|steps| - 1]);
      WorldExactly(timeout, init);
      WorldNext(timeout, After(timeout, init).value, init, last);
      assert steps == init + [last];
    }
  }

  // ----- every outcome is reached -----

  lemma Push(timeout: nat, steps: seq<Step>, s: State, step: Step) returns (steps': seq<Step>, s': State)
    requires After(timeout, steps) == Some(s) && Enabled(s, step)
    ensures steps' == steps + [step] && s' == Do(timeout, s, step) && After(timeout, steps') == Some(s')
  {
    steps', s' := steps + [step], Do(timeout, s, step);
    assert steps'[..|steps|] == steps;
  }

  /** A drain has begun under which one connection is open, with a request under way. */
  function DrainState(timeout: nat, now: nat): State {
    State(Draining, Serving, [], false, true, true, 1, 1, now, 0, WithTimeout(WithoutCancel(Parent), timeout), 0, 0)
  }

  lemma ReachDrain(timeout: nat) returns (steps: seq<Step>)
    ensures After(timeout, steps) == Some(DrainState(timeout, 0))
  {
    var s := INIT;
    steps := [];
    steps, s := Push(timeout, steps, s, Spawn);
    steps, s := Push(timeout, steps, s, MarkReady);
    steps, s := Push(timeout, steps, s, BeginServe);
    steps, s := Push(timeout, steps, s, Accept);
    steps, s := Push(timeout, steps, s, BeginRequest);
    steps, s := Push(timeout, steps, s, Cancel);
    steps, s := Push(timeout, steps, s, TakeCancel);
    steps, s := Push(timeout, steps, s, MarkNotReady);
    steps, s := Push(timeout, steps, s, LimitDrain);
    steps, s := Push(timeout, steps, s, BeginShutdown);
  }

  /** The request ends, the client disconnects, and the drain ends in time. */
  lemma NilIsReached(timeout: nat) returns (steps: seq<Step>, s: State)
    ensures After(timeout, steps) == Some(s) && s.main == Returned(Nil)
  {
    steps := ReachDrain(timeout);
    s := DrainState(timeout, 0);
    steps, s := Push(timeout, steps, s, EndRequest);
    steps, s := Push(timeout, steps, s, Disconnect);
    steps, s := Push(timeout, steps, s, EndServe(ServerClosed));
    steps, s := Push(timeout, steps, s, Send);
    steps, s := Push(timeout, steps, s, EndShutdown);
    steps, s := Push(timeout, steps, s, TakeAfterDrain);
  }

  /** The listener fails before anything else happens. */
  lemma ServeFailedIsReached(timeout: nat) returns (steps: seq<Step>, s: State)
    ensures After(timeout, steps) == Some(s) && s.main == Returned(ServeFailed)
  {
    s := INIT;
    steps := [];
    steps, s := Push(timeout, steps, s, Spawn);
    steps, s := Push(timeout, steps, s, BeginServe);
    steps, s := Push(timeout, steps, s, EndServe(ServeError));
    steps, s := Push(timeout, steps, s, Send);
    steps, s := Push(timeout, steps, s, MarkReady);
    steps, s := Push(timeout, steps, s, TakeResult);
    steps, s := Push(timeout, steps, s, ReturnResult);
  }

  lemma {:induction false} Wait(timeout: nat, n: nat) returns (steps: seq<Step>)
    ensures After(timeout, steps) == Some(DrainState(timeout, n))
  {
    if n == 0 {
      steps := ReachDrain(timeout);
    } else {
      steps := Wait(timeout, n - 1);
      var s;
      steps, s := Push(timeout, steps, DrainState(timeout, n - 1), Tick);
    }
  }

  /** A request that does not end within the timeout makes the drain fail, and no earlier. */
  lemma DrainFailedIsReached(timeout: nat) returns (steps: seq<Step>, s: State)
    ensures After(timeout, steps) == Some(s) && s.main == Returned(DrainFailed(DeadlineExceeded)) && s.now == timeout
  {
    steps := Wait(timeout, timeout);
    s := DrainState(timeout, timeout);
    steps, s := Push(timeout, steps, s, FailShutdown(DeadlineExceeded));
    steps, s := Push(timeout, steps, s, Close);
    steps, s := Push(timeout, steps, s, EndServe(ServerClosed));
    steps, s := Push(timeout, steps, s, Send);
    steps, s := Push(timeout, steps, s, TakeAfterClose);
  }

  /** The listener turns out broken once the connections are gone. */
  lemma ListenerErrorIsReached(timeout: nat) returns (steps: seq<Step>, s: State)
    ensures After(timeout, steps) == Some(s) && s.main == Returned(DrainFailed(ListenerError)) && s.now == 0
  {
    steps := ReachDrain(timeout);
    s := DrainState(timeout, 0);
    steps, s := Push(timeout, steps, s, EndRequest);
    steps, s := Push(timeout, steps, s, Disconnect);
    steps, s := Push(timeout, steps, s, FailShutdown(ListenerError));
    steps, s := Push(timeout, steps, s, Close);
    steps, s := Push(timeout, steps, s, EndServe(ServerClosed));
    steps, s := Push(timeout, steps, s, Send);
    steps, s := Push(timeout, steps, s, TakeAfterClose);
  }

  // ----- what the world can always do -----

  lemma CancelAnyTime(timeout: nat, s: State)
    ensures Enabled(s, Cancel) <==> !s.cancelled
    ensures Enabled(s, Cancel) ==> Do(timeout, s, Cancel) == s.(cancelled := true)
  {
  }

  lemma DrainStep(timeout: nat, steps: seq<Step>, s: State) returns (step: Step, next: State)
    requires After(timeout, steps) == Some(s) && s.active <= s.open && s.open > 0
    ensures step == EndRequest || step == Disconnect
    ensures After(timeout, steps + [step]) == Some(next)
    ensures next == if s.active > 0 then s.(active := s.active - 1) else s.(open := s.open - 1)
  {
    step := if s.active > 0 then EndRequest else Disconnect;
    var steps';
    steps', next := Push(timeout, steps, s, step);
  }

  lemma {:induction false} TrafficCanEnd(timeout: nat, steps: seq<Step>, s: State) returns (more: seq<Step>)
    requires After(timeout, steps) == Some(s) && s.active <= s.open
    ensures After(timeout, steps + more) == Some(s.(open := 0, active := 0))
    ensures forall step :: step in more ==> step == EndRequest || step == Disconnect
    decreases s.active, s.open
  {
    if s.open == 0 {
      assert steps + [] == steps;
      return [];
    }
    var step, next := DrainStep(timeout, steps, s);
    more := TrafficCanEnd(timeout, steps + [step], next);
    assert steps + [step] + more == steps + ([step] + more);
    more := [step] + more;
  }

  /** However many connections and requests a drain finds, they can end at once, and then so can
      the drain. */
  lemma DrainCanEnd(timeout: nat, steps: seq<Step>, s: State) returns (more: seq<Step>)
    requires After(timeout, steps) == Some(s) && s.main == Draining
    ensures After(timeout, steps + more) == Some(s.(open := 0, active := 0))
    ensures forall step :: step in more ==> step == EndRequest || step == Disconnect
    ensures Enabled(s.(open := 0, active := 0), EndShutdown)
  {
    var states := AfterIsReached(timeout, steps);
    RunKeeps(timeout, states, steps, |steps|);
    more := TrafficCanEnd(timeout, steps, s);
  }
}
