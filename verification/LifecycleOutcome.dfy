/** What `Serve` returns, told from the steps of the run. */
module LifecycleOutcome {
  import opened Lifecycle
  import opened LifecycleProgress

  /** The drain has failed with this error. */
  predicate DrainFailedIn(steps: seq<Step>, error: ShutdownError) {
    FailShutdown(error) in steps
  }

  predicate DrainFailedAtAll(steps: seq<Step>) {
    exists error :: DrainFailedIn(steps, error)
  }

  /** The listener's loop has ended with an error of its own. */
  predicate ListenerFailedIn(steps: seq<Step>) {
    EndServe(ServeError) in steps
  }

  predicate HoldsDrainError(m: Main, error: ShutdownError) {
    m in {Undrained(error), Closed(error), Returned(DrainFailed(error))}
  }

  predicate HoldsServeError(s: State) {
    s.worker == Finished(ServeError) || ServeError in s.channel ||
    s.main in {Received(ServeError), Returned(ServeFailed)}
  }

  /** The state remembers what has failed; only a failed drain makes it forget the listener. */
  predicate Remembers(s: State, steps: seq<Step>) {
    && (forall error :: DrainFailedIn(steps, error) <==> HoldsDrainError(s.main, error))
    && (!ReturnedUndrained(s.main) ==> (ListenerFailedIn(steps) <==> HoldsServeError(s)))
  }

  lemma InSnoc<T>(s: seq<T>, last: T, x: T)
    ensures x in s + [last] <==> x in s || x == last
  {
  }

  lemma DrainRemembered(timeout: nat, s: State, step: Step, error: ShutdownError)
    requires Inv(timeout, s) && Enabled(s, step)
    ensures HoldsDrainError(Do(timeout, s, step).main, error) <==>
            HoldsDrainError(s.main, error) || step == FailShutdown(error)
  {
  }

  lemma ListenerRemembered(timeout: nat, s: State, step: Step)
    requires Inv(timeout, s) && Enabled(s, step) && !ReturnedUndrained(Do(timeout, s, step).main)
    ensures HoldsServeError(Do(timeout, s, step)) <==> HoldsServeError(s) || step == EndServe(ServeError)
  {
  }

  lemma {:induction false} RunRemembers(timeout: nat, states: seq<State>, steps: seq<Step>, i: nat)
    requires IsRun(timeout, states, steps) && i < |states|
    ensures Remembers(states[i], steps[..i])
  {
    if i > 0 {
      var (before, step) := (states[i - 1], steps[i - 1]);
      RunRemembers(timeout, states, steps, i - 1);
      RunKeeps(timeout, states, steps, i - 1);
      RankGrowsAt(timeout, states, steps, i - 1);
      assert steps[..i] == steps[..i - 1] + [step];
      forall error ensures DrainFailedIn(steps[..i], error) <==> HoldsDrainError(states[i].main, error) {
        InSnoc(steps[..i - 1], step, FailShutdown(error));
        DrainRemembered(timeout, before, step, error);
      }
      InSnoc(steps[..i - 1], step, EndServe(ServeError));
      if !ReturnedUndrained(states[i].main) { ListenerRemembered(timeout, before, step); }
    }
  }

  /** `Serve` returns the error with which the drain failed; if no drain failed, the listener's
      error; and nil exactly when neither failed. */
  predicate Reports(outcome: Outcome, steps: seq<Step>) {
    && (forall error :: outcome == DrainFailed(error) <==> DrainFailedIn(steps, error))
    && (outcome == ServeFailed <==> !DrainFailedAtAll(steps) && ListenerFailedIn(steps))
    && (outcome == Nil <==> !DrainFailedAtAll(steps) && !ListenerFailedIn(steps))
  }

  /** Every return of every run reports what has failed, and nothing else. */
  lemma OutcomeExactly(timeout: nat, states: seq<State>, steps: seq<Step>, i: nat)
    requires IsRun(timeout, states, steps) && i < |states| && states[i].main.Returned?
    ensures Reports(states[i].main.outcome, steps[..i])
  {
    RunKeeps(timeout, states, steps, i);
    RunRemembers(timeout, states, steps, i);
    var outcome := states[i].main.outcome;
    forall error ensures outcome == DrainFailed(error) <==> DrainFailedIn(steps[..i], error) {
      assert HoldsDrainError(states[i].main, error) <==> outcome == DrainFailed(error);
    }
    if outcome.DrainFailed? { assert DrainFailedIn(steps[..i], outcome.reason); }
  }

  // ----- infinite runs -----

  function Prefix<T>(s: nat -> T, n: nat): seq<T> {
    seq(n, (i: nat) => s(i))
  }

  lemma PrefixIsRun(timeout: nat, states: nat -> State, steps: nat -> Step, n: nat)
    requires IsInfiniteRun(timeout, states, steps)
    ensures IsRun(timeout, Prefix(states, n + 1), Prefix(steps, n))
  {
    var (ss, ts) := (Prefix(states, n + 1), Prefix(steps, n));
    forall i {:trigger ts[i]} | 0 <= i < |ts| ensures Enabled(ss[i], ts[i]) && ss[i + 1] == Do(timeout, ss[i], ts[i]) {
      assert Enabled(states(i), steps(i)) && states(i + 1) == Do(timeout, states(i), steps(i));
    }
  }

  lemma ReturnReports(timeout: nat, states: nat -> State, steps: nat -> Step, n: nat)
    requires IsInfiniteRun(timeout, states, steps) && states(n).main.Returned?
    ensures Reports(states(n).main.outcome, Prefix(steps, n))
  {
    PrefixIsRun(timeout, states, steps, n);
    OutcomeExactly(timeout, Prefix(states, n + 1), Prefix(steps, n), n);
    assert Prefix(steps, n)[..n] == Prefix(steps, n);
  }

  /** In a weakly fair run in which neither the drain nor the listener fails, a cancelled `Serve`
      returns nil, with readiness down and no connection or request left. */
  lemma CleanShutdown(timeout: nat, states: nat -> State, steps: nat -> Step, k: nat) returns (n: nat)
    requires IsInfiniteRun(timeout, states, steps) && IsJust(states, steps) && states(k).cancelled
    requires forall i: nat :: !steps(i).FailShutdown? && steps(i) != EndServe(ServeError)
    ensures k <= n && states(n).main == Returned(Nil)
    ensures !states(n).ready && states(n).open == 0 && states(n).active == 0
  {
    n := ServeReturns(timeout, states, steps, k);
    ReturnReports(timeout, states, steps, n);
    ReturnIsClean(timeout, states, steps, n);
    assert forall i :: 0 <= i < n ==> Prefix(steps, n)[i] == steps(i);
  }
}
