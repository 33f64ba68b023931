/** That `Serve` returns: infinite runs under fair scheduling. */
module LifecycleProgress {
  import opened Lifecycle

  ghost predicate IsInfiniteRun(timeout: nat, states: nat -> State, steps: nat -> Step) {
    && states(0) == INIT
    && forall i: nat {:trigger steps(i)} ::
         Enabled(states(i), steps(i)) && states(i + 1) == Do(timeout, states(i), steps(i))
  }

  /** Weak fairness: a step of the server, or of the clock it waits for, that is possible from
      some point after cancellation on, is taken. */
  ghost predicate IsJust(states: nat -> State, steps: nat -> Step) {
    forall i: nat, step :: StaysDue(states, i, step) ==> exists j: nat :: TakenAt(steps, i, j, step)
  }

  ghost predicate StaysDue(states: nat -> State, i: nat, step: Step) {
    forall j: nat :: i <= j ==> IsDue(states(j), step)
  }

  predicate IsDue(s: State, step: Step) {
    s.cancelled && Enabled(s, step) && IsSystemStep(s, step)
  }

  ghost predicate TakenAt(steps: nat -> Step, i: nat, j: nat, step: Step) {
    i <= j && steps(j) == step
  }

  /** What that comes to: until it returns the server moves again and again. */
  ghost predicate IsFair(states: nat -> State, steps: nat -> Step) {
    forall i: nat :: ReturnIsDue(states, i) ==> exists j: nat :: MovesAt(states, steps, i, j)
  }

  ghost predicate ReturnIsDue(states: nat -> State, i: nat) {
    states(i).cancelled && !states(i).main.Returned?
  }

  ghost predicate MovesAt(states: nat -> State, steps: nat -> Step, i: nat, j: nat) {
    i <= j && (states(j).main.Returned? || IsSystemStep(states(j), steps(j)))
  }

  lemma {:induction false} InfiniteRunKeeps(timeout: nat, states: nat -> State, steps: nat -> Step, i: nat)
    requires IsInfiniteRun(timeout, states, steps)
    ensures Inv(timeout, states(i))
  {
    if i > 0 {
      InfiniteRunKeeps(timeout, states, steps, i - 1);
      assert Enabled(states(i - 1), steps(i - 1)) && states(i - 1 + 1) == Do(timeout, states(i - 1), steps(i - 1));
      StepKeeps(timeout, states(i - 1), steps(i - 1));
    }
  }

  lemma {:induction false} NothingTakenBack(timeout: nat, states: nat -> State, steps: nat -> Step, i: nat, j: nat)
    requires IsInfiniteRun(timeout, states, steps) && i <= j
    ensures Measure(timeout, states(j)) <= Measure(timeout, states(i))
    ensures states(i).cancelled ==> states(j).cancelled
  {
    if i < j {
      NothingTakenBack(timeout, states, steps, i, j - 1);
      InfiniteRunKeeps(timeout, states, steps, j - 1);
      assert Enabled(states(j - 1), steps(j - 1)) && states(j - 1 + 1) == Do(timeout, states(j - 1), steps(j - 1));
      SystemStepDecreases(timeout, states(j - 1), steps(j - 1));
    }
  }

  lemma {:induction false} FairRunReturns(timeout: nat, states: nat -> State, steps: nat -> Step, k: nat)
    returns (n: nat)
    requires IsInfiniteRun(timeout, states, steps) && IsFair(states, steps)
    requires states(k).cancelled
    ensures k <= n && states(n).main.Returned?
    decreases Measure(timeout, states(k))
  {
    if states(k).main.Returned? {
      return k;
    }
    assert ReturnIsDue(states, k);
    var j: nat :| MovesAt(states, steps, k, j);
    if states(j).main.Returned? {
      return j;
    }
    NothingTakenBack(timeout, states, steps, k, j);
    InfiniteRunKeeps(timeout, states, steps, j);
    assert Enabled(states(j), steps(j)) && states(j + 1) == Do(timeout, states(j), steps(j));
    SystemStepDecreases(timeout, states(j), steps(j));
    NothingTakenBack(timeout, states, steps, j, j + 1);
    n := FairRunReturns(timeout, states, steps, j + 1);
  }

  // ----- fairness of enabled steps is progress -----

  /** No other step disables a due one, nor makes it one the server need not take. */
  lemma DueStaysDue(timeout: nat, s: State, step: Step, other: Step)
    requires Inv(timeout, s) && IsDue(s, step) && Enabled(s, other) && !IsSystemStep(s, other)
    ensures IsDue(Do(timeout, s, other), step)
  {
    if s.main == Draining {
      ExpiresByDeadline(s.drain, s.cancelled, s.now);
      ExpiresByDeadline(s.drain, Do(timeout, s, other).cancelled, Do(timeout, s, other).now);
    }
  }

  lemma NothingDueAtReturn(timeout: nat, s: State, step: Step)
    requires Inv(timeout, s) && s.main.Returned?
    ensures !IsDue(s, step)
  {
  }

  lemma {:induction false} DueUntilMoved(timeout: nat, states: nat -> State, steps: nat -> Step, i: nat, j: nat,
                                         step: Step)
    requires IsInfiniteRun(timeout, states, steps) && i <= j && IsDue(states(i), step)
    requires forall k: nat :: !MovesAt(states, steps, i, k)
    ensures IsDue(states(j), step)
  {
    if i < j {
      DueUntilMoved(timeout, states, steps, i, j - 1, step);
      InfiniteRunKeeps(timeout, states, steps, j - 1);
      assert Enabled(states(j - 1), steps(j - 1)) && states(j - 1 + 1) == Do(timeout, states(j - 1), steps(j - 1));
      assert !MovesAt(states, steps, i, j - 1);
      DueStaysDue(timeout, states(j - 1), step, steps(j - 1));
    }
  }

  lemma MovesInTime(timeout: nat, states: nat -> State, steps: nat -> Step, i: nat)
    requires IsInfiniteRun(timeout, states, steps) && IsJust(states, steps) && ReturnIsDue(states, i)
    ensures exists j: nat :: MovesAt(states, steps, i, j)
  {
    if forall k: nat :: !MovesAt(states, steps, i, k) {
      InfiniteRunKeeps(timeout, states, steps, i);
      var step := SystemStepEnabled(timeout, states(i));
      forall j: nat | i <= j ensures IsDue(states(j), step) { DueUntilMoved(timeout, states, steps, i, j, step); }
      assert StaysDue(states, i, step);
      var j: nat :| TakenAt(steps, i, j, step);
      assert IsDue(states(j), step);
      assert MovesAt(states, steps, i, j);
    }
  }

  lemma NothingStaysDue(timeout: nat, states: nat -> State, steps: nat -> Step, i: nat, step: Step)
    requires IsInfiniteRun(timeout, states, steps) && IsFair(states, steps)
    ensures !StaysDue(states, i, step)
  {
    if IsDue(states(i), step) {
      var n := FairRunReturns(timeout, states, steps, i);
      InfiniteRunKeeps(timeout, states, steps, n);
      NothingDueAtReturn(timeout, states(n), step);
      assert i <= n && !IsDue(states(n), step);
    }
  }

  /** For a server that is never stuck the two kinds of fairness are one. */
  lemma JustIsFair(timeout: nat, states: nat -> State, steps: nat -> Step)
    requires IsInfiniteRun(timeout, states, steps)
    ensures IsJust(states, steps) <==> IsFair(states, steps)
  {
    if IsJust(states, steps) {
      forall i: nat | ReturnIsDue(states, i) ensures exists j: nat :: MovesAt(states, steps, i, j) {
        MovesInTime(timeout, states, steps, i);
      }
    }
    if IsFair(states, steps) {
      forall i: nat, step ensures !StaysDue(states, i, step) {
        NothingStaysDue(timeout, states, steps, i, step);
      }
    }
  }

  /** In every weakly fair run, whatever the connections, the requests and the clock do, `Serve`
      returns once it has been cancelled. */
  lemma ServeReturns(timeout: nat, states: nat -> State, steps: nat -> Step, k: nat) returns (n: nat)
    requires IsInfiniteRun(timeout, states, steps) && IsJust(states, steps)
    requires states(k).cancelled
    ensures k <= n && states(n).main.Returned?
  {
    JustIsFair(timeout, states, steps);
    n := FairRunReturns(timeout, states, steps, k);
  }

  /** However it returns, readiness is withdrawn and the result has been taken. */
  lemma ReturnIsClean(timeout: nat, states: nat -> State, steps: nat -> Step, n: nat)
    requires IsInfiniteRun(timeout, states, steps) && states(n).main.Returned?
    ensures var s := states(n);
            && !s.ready && s.sent == 1 && s.taken == 1 && s.channel == []
            && (s.main == Returned(Nil) ==> s.cancelled && s.open == 0 && s.active == 0)
            && (FailedByDeadline(s.main) ==> s.now >= s.withdrawnAt + timeout)
  {
    InfiniteRunKeeps(timeout, states, steps, n);
  }
}
