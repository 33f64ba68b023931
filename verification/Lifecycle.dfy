/** The server's lifecycle as interleaved steps: `Serve`, its goroutine, the one-slot
    channel between them, the readiness flag, and the world of connections and time. */
module Lifecycle {
  datatype ServeResult = ServerClosed | ServeError

  datatype ShutdownError = DeadlineExceeded | ListenerError

  datatype Outcome = Nil | ServeFailed | DrainFailed(reason: ShutdownError)

  /** `context.Context`: the caller's, one that ignores its parent's cancellation, and one
      that expires at a deadline or with its parent. */
  datatype Context = Parent | WithoutCancel(of: Context) | WithTimeout(of: Context, deadline: nat)

  /** Whether a context is done, given whether the caller has cancelled and what time it is. */
  predicate Expired(context: Context, cancelled: bool, now: nat) {
    match context
    case Parent => cancelled
    case WithoutCancel(_) => false
    case WithTimeout(of, deadline) => now >= deadline || Expired(of, cancelled, now)
  }

  /** Where `Serve` is. */
  datatype Main =
    | Start
    | Spawned
    | Selecting
    | Received(result: ServeResult)
    | Cancelled
    | Withdrawn
    | Limited
    | Draining
    | Drained
    | Undrained(error: ShutdownError)
    | Closed(error: ShutdownError)
    | Returned(outcome: Outcome)

  /** Where the goroutine is. */
  datatype Worker = Absent | Starting | Serving | Finished(result: ServeResult) | Done

  /** `open` counts connections, `active` requests in flight, which a forced close leaves
      running. `drain` is the context that limits the drain. */
  datatype State = State(
    main: Main, worker: Worker, channel: seq<ServeResult>,
    ready: bool, cancelled: bool, shuttingDown: bool,
    open: nat, active: nat,
    now: nat, withdrawnAt: nat, drain: Context,
    sent: nat, taken: nat)

  const INIT := State(Start, Absent, [], false, false, false, 0, 0, 0, 0, Parent, 0, 0)

  datatype Step =
    // Serve
    | Spawn | MarkReady | TakeResult | TakeCancel | ReturnResult
    | MarkNotReady | LimitDrain | BeginShutdown | EndShutdown | FailShutdown(error: ShutdownError)
    | Close | TakeAfterClose | TakeAfterDrain
    // the goroutine
    | BeginServe | EndServe(result: ServeResult) | Send
    // the world
    | Cancel | Accept | Disconnect | BeginRequest | EndRequest | Tick

  predicate Enabled(s: State, step: Step) {
    match step
    case Spawn => s.main == Start
    case MarkReady => s.main == Spawned
    case TakeResult => s.main == Selecting && s.channel != []
    case TakeCancel => s.main == Selecting && s.cancelled
    case ReturnResult => s.main.Received?
    case MarkNotReady => s.main == Cancelled
    case LimitDrain => s.main == Withdrawn
    case BeginShutdown => s.main == Limited
    case EndShutdown => s.main == Draining && s.open == 0
    case FailShutdown(DeadlineExceeded) => s.main == Draining && Expired(s.drain, s.cancelled, s.now)
    case FailShutdown(ListenerError) => s.main == Draining && s.open == 0
    case Close => s.main.Undrained?
    case TakeAfterClose => s.main.Closed? && s.channel != []
    case TakeAfterDrain => s.main == Drained && s.channel != []
    case BeginServe => s.worker == Starting
    case EndServe(result) =>
      s.worker == Serving && (result == ServerClosed <==> s.shuttingDown)
    case Send => s.worker.Finished? && |s.channel| < 1
    case Cancel => !s.cancelled
    case Accept => s.worker == Serving && !s.shuttingDown
    case Disconnect => s.open > s.active
    case BeginRequest => s.active < s.open
    case EndRequest => s.active > 0
    case Tick => true
  }

  function OutcomeOf(result: ServeResult): Outcome {
    if result == ServerClosed then Nil else ServeFailed
  }

  function Do(timeout: nat, s: State, step: Step): State
    requires Enabled(s, step)
  {
    match step
    case Spawn => s.(main := Spawned, worker := Starting)
    case MarkReady => s.(main := Selecting, ready := true)
    case TakeResult => s.(main := Received(s.channel[0]), channel := s.channel[1..], taken := s.taken + 1)
    case TakeCancel => s.(main := Cancelled)
    case ReturnResult => s.(main := Returned(OutcomeOf(s.main.result)), ready := false)
    case MarkNotReady => s.(main := Withdrawn, ready := false, withdrawnAt := s.now)
    case LimitDrain => s.(main := Limited, drain := WithTimeout(WithoutCancel(Parent), s.now + timeout))
    case BeginShutdown => s.(main := Draining, shuttingDown := true)
    case EndShutdown => s.(main := Drained)
    case FailShutdown(error) => s.(main := Undrained(error))
    case Close => s.(main := Closed(s.main.error), open := 0)
    case TakeAfterClose =>
      s.(main := Returned(DrainFailed(s.main.error)), channel := s.channel[1..], taken := s.taken + 1)
    case TakeAfterDrain =>
      s.(main := Returned(OutcomeOf(s.channel[0])), channel := s.channel[1..], taken := s.taken + 1)
    case BeginServe => s.(worker := if s.shuttingDown then Finished(ServerClosed) else Serving)
    case EndServe(result) => s.(worker := Finished(result))
    case Send => s.(worker := Done, channel := s.channel + [s.worker.result], sent := s.sent + 1)
    case Cancel => s.(cancelled := true)
    case Accept => s.(open := s.open + 1)
    case Disconnect => s.(open := s.open - 1)
    case BeginRequest => s.(active := s.active + 1)
    case EndRequest => s.(active := s.active - 1)
    case Tick => s.(now := s.now + 1)
  }

  // ----- what every step keeps -----

  predicate PastShutdown(m: Main) {
    m.Draining? || m.Drained? || m.Undrained? || m.Closed?
  }

  /** `Serve` has come down the branch that cancellation opens. */
  predicate OnDrainBranch(m: Main) {
    m.Cancelled? || m.Withdrawn? || m.Limited? || PastShutdown(m)
  }

  /** The value that has been, or will be, sent. */
  predicate Results(s: State, p: ServeResult -> bool) {
    && (s.worker.Finished? ==> p(s.worker.result))
    && (forall i :: 0 <= i < |s.channel| ==> p(s.channel[i]))
    && (s.main.Received? ==> p(s.main.result))
  }

  predicate ChannelInv(s: State) {
    && s.sent == (if s.worker == Done then 1 else 0)
    && s.taken == (if s.main.Received? || s.main.Returned? then 1 else 0)
    && |s.channel| + s.taken == s.sent
    && (s.main == Start <==> s.worker == Absent)
  }

  predicate ReadinessInv(s: State) {
    && (s.ready <==> s.main.Selecting? || s.main.Received? || s.main.Cancelled?)
    && (s.shuttingDown ==> !s.ready)
  }

  predicate ShutdownInv(s: State) {
    && (PastShutdown(s.main) ==> s.shuttingDown)
    && (s.shuttingDown ==> PastShutdown(s.main) || s.main.Returned?)
    && (!s.shuttingDown ==> Results(s, r => r == ServeError))
    && (OnDrainBranch(s.main) ==> s.cancelled)
  }

  predicate ConnectionInv(s: State) {
    && (!s.main.Closed? && !ReturnedUndrained(s.main) ==> s.active <= s.open)
    && (s.main == Drained || s.main.Closed? ==> s.open == 0)
    && (s.main.Returned? && s.shuttingDown ==> s.open == 0 && s.cancelled)
    && (s.main.Returned? && !s.shuttingDown ==> s.main.outcome == ServeFailed)
  }

  predicate ReturnedUndrained(m: Main) {
    m.Returned? && m.outcome.DrainFailed?
  }

  ghost predicate NeverExpires(context: Context) {
    forall cancelled, now: nat :: !Expired(context, cancelled, now)
  }

  /** From its making on, the drain's context has nothing but a deadline, at least the full
      timeout after readiness was withdrawn. */
  ghost predicate DrainInv(timeout: nat, s: State) {
    && (s.main.Withdrawn? || s.main.Limited? || PastShutdown(s.main) ==> s.withdrawnAt <= s.now)
    && (s.main.Limited? || PastShutdown(s.main) ==>
          && s.drain.WithTimeout? && NeverExpires(s.drain.of)
          && s.withdrawnAt + timeout <= s.drain.deadline <= s.now + timeout)
  }

  ghost predicate DeadlineInv(timeout: nat, s: State) {
    DrainInv(timeout, s) && (FailedByDeadline(s.main) ==> s.now >= s.withdrawnAt + timeout)
  }

  predicate FailedByDeadline(m: Main) {
    m in {Undrained(DeadlineExceeded), Closed(DeadlineExceeded), Returned(DrainFailed(DeadlineExceeded))}
  }

  ghost predicate Inv(timeout: nat, s: State) {
    ChannelInv(s) && ReadinessInv(s) && ShutdownInv(s) && ConnectionInv(s) && DeadlineInv(timeout, s)
  }

  lemma ChannelKept(timeout: nat, s: State, step: Step)
    requires Inv(timeout, s) && Enabled(s, step)
    ensures ChannelInv(Do(timeout, s, step))
  {
  }

  lemma ReadinessKept(timeout: nat, s: State, step: Step)
    requires Inv(timeout, s) && Enabled(s, step)
    ensures ReadinessInv(Do(timeout, s, step))
  {
  }

  lemma ShutdownKept(timeout: nat, s: State, step: Step)
    requires Inv(timeout, s) && Enabled(s, step)
    ensures ShutdownInv(Do(timeout, s, step))
  {
  }

  lemma ConnectionKept(timeout: nat, s: State, step: Step)
    requires Inv(timeout, s) && Enabled(s, step)
    ensures ConnectionInv(Do(timeout, s, step))
  {
  }

  lemma ExpiresByDeadline(context: Context, cancelled: bool, now: nat)
    requires context.WithTimeout? && NeverExpires(context.of)
    ensures Expired(context, cancelled, now) <==> now >= context.deadline
  {
    assert !Expired(context.of, cancelled, now);
  }

  /** A context made from one that ignores its parent has the deadline and nothing else. */
  lemma DetachedNeverExpires(context: Context)
    ensures NeverExpires(WithoutCancel(context))
  {
  }

  lemma DrainKept(timeout: nat, s: State, step: Step)
    requires Inv(timeout, s) && Enabled(s, step)
    ensures DrainInv(timeout, Do(timeout, s, step))
  {
    DetachedNeverExpires(Parent);
  }

  lemma DeadlineKept(timeout: nat, s: State, step: Step)
    requires Inv(timeout, s) && Enabled(s, step)
    ensures DeadlineInv(timeout, Do(timeout, s, step))
  {
    DrainKept(timeout, s, step);
    if s.main == Draining {
      ExpiresByDeadline(s.drain, s.cancelled, s.now);
    }
  }

  lemma StepKeeps(timeout: nat, s: State, step: Step)
    requires Inv(timeout, s) && Enabled(s, step)
    ensures Inv(timeout, Do(timeout, s, step))
  {
    ChannelKept(timeout, s, step);
    ReadinessKept(timeout, s, step);
    ShutdownKept(timeout, s, step);
    ConnectionKept(timeout, s, step);
    DeadlineKept(timeout, s, step);
  }

  // ----- runs -----

  /** A run: states joined by enabled steps, from the initial one. */
  predicate IsRun(timeout: nat, states: seq<State>, steps: seq<Step>) {
    && |states| == |steps| + 1 && states[0] == INIT
    && forall i {:trigger steps[i]} ::
         0 <= i < |steps| ==> Enabled(states[i], steps[i]) && states[i + 1] == Do(timeout, states[i], steps[i])
  }

  lemma {:induction false} RunKeeps(timeout: nat, states: seq<State>, steps: seq<Step>, i: nat)
    requires IsRun(timeout, states, steps) && i < |states|
    ensures Inv(timeout, states[i])
  {
    if i > 0 {
      RunKeeps(timeout, states, steps, i - 1);
      StepKeeps(timeout, states[i - 1], steps[i - 1]);
    }
  }

  /** How far `Serve` has come; no step takes it back. */
  function Rank(m: Main): nat {
    match m
    case Start => 0
    case Spawned => 1
    case Selecting => 2
    case Received(_) => 3
    case Cancelled => 3
    case Withdrawn => 4
    case Limited => 5
    case Draining => 6
    case Drained => 7
    case Undrained(_) => 7
    case Closed(_) => 8
    case Returned(_) => 9
  }

  predicate IsServeStep(step: Step) {
    step.Spawn? || step.MarkReady? || step.TakeResult? || step.TakeCancel? || step.ReturnResult? ||
    step.MarkNotReady? || step.LimitDrain? || step.BeginShutdown? || step.EndShutdown? || step.FailShutdown? ||
    step.Close? || step.TakeAfterClose? || step.TakeAfterDrain?
  }

  lemma RankGrows(timeout: nat, s: State, step: Step)
    requires Enabled(s, step)
    ensures Rank(Do(timeout, s, step).main) >= Rank(s.main)
  {
  }

  lemma {:induction false} RankGrowsOverRun(timeout: nat, states: seq<State>, steps: seq<Step>, i: nat, j: nat)
    requires IsRun(timeout, states, steps) && i <= j < |states|
    ensures Rank(states[i].main) <= Rank(states[j].main)
  {
    if i < j {
      RankGrowsOverRun(timeout, states, steps, i, j - 1);
      RankGrowsAt(timeout, states, steps, j - 1);
    }
  }

  lemma RankGrowsAt(timeout: nat, states: seq<State>, steps: seq<Step>, i: nat)
    requires IsRun(timeout, states, steps) && i < |steps|
    ensures Rank(states[i].main) <= Rank(states[i + 1].main)
  {
    RankGrows(timeout, states[i], steps[i]);
  }

  /** Readiness goes false, true, false: once withdrawn it never comes back. */
  lemma ReadyOnce(timeout: nat, states: seq<State>, steps: seq<Step>, i: nat, j: nat, k: nat)
    requires IsRun(timeout, states, steps) && i <= j <= k < |states|
    requires states[i].ready && !states[j].ready
    ensures !states[k].ready
  {
    RunKeeps(timeout, states, steps, i);
    RunKeeps(timeout, states, steps, j);
    RunKeeps(timeout, states, steps, k);
    RankGrowsOverRun(timeout, states, steps, i, j);
    RankGrowsOverRun(timeout, states, steps, j, k);
  }

  /** At every point of every run: the goroutine's send finds the channel empty;
      readiness is withdrawn before shutdown begins and is down at return; by then the
      result has been sent and received once; a nil return means that cancellation
      came and that neither connection nor request remains. */
  lemma Safety(timeout: nat, states: seq<State>, steps: seq<Step>, i: nat)
    requires IsRun(timeout, states, steps) && i < |states|
    ensures var s := states[i];
            && (s.worker.Finished? ==> Enabled(s, Send))
            && (s.shuttingDown ==> !s.ready)
            && (s.main.Returned? ==> !s.ready && s.sent == 1 && s.taken == 1 && s.channel == [])
            && (s.main == Returned(Nil) ==> s.cancelled && s.open == 0 && s.active == 0)
            && (FailedByDeadline(s.main) ==> s.now >= s.withdrawnAt + timeout)
  {
    RunKeeps(timeout, states, steps, i);
  }

  // ----- progress -----

  function DeadlineOf(context: Context): nat {
    if context.WithTimeout? then context.deadline else 0
  }

  /** The steps the server itself, or the clock it waits for, will take. */
  predicate IsSystemStep(s: State, step: Step) {
    IsServeStep(step) || step.BeginServe? || step.EndServe? || step.Send? ||
    (step.Tick? && s.main == Draining && s.now < DeadlineOf(s.drain))
  }

  function WorkerLeft(w: Worker): nat {
    match w
    case Absent => 4
    case Starting => 3
    case Serving => 2
    case Finished(_) => 1
    case Done => 0
  }

  function TimeLeft(timeout: nat, s: State): nat {
    if Rank(s.main) < 5 then timeout
    else if (s.main.Limited? || s.main.Draining?) && DeadlineOf(s.drain) > s.now then DeadlineOf(s.drain) - s.now
    else 0
  }

  function Measure(timeout: nat, s: State): nat {
    9 - Rank(s.main) + WorkerLeft(s.worker) + TimeLeft(timeout, s)
  }

  /** After cancellation the server is never stuck before it has returned. */
  lemma SystemStepEnabled(timeout: nat, s: State) returns (step: Step)
    requires Inv(timeout, s) && s.cancelled && !s.main.Returned?
    ensures Enabled(s, step) && IsSystemStep(s, step)
  {
    if s.main == Draining {
      ExpiresByDeadline(s.drain, s.cancelled, s.now);
    }
    match s.main
    case Start => step := Spawn;
    case Spawned => step := MarkReady;
    case Selecting => step := TakeCancel;
    case Received(_) => step := ReturnResult;
    case Cancelled => step := MarkNotReady;
    case Withdrawn => step := LimitDrain;
    case Limited => step := BeginShutdown;
    case Draining => step := if s.now < s.drain.deadline then Tick else FailShutdown(DeadlineExceeded);
    case Undrained(_) => step := Close;
    case _ =>
      step := match s.worker
        case Starting => BeginServe
        case Serving => EndServe(ServerClosed)
        case Finished(_) => Send
        case _ => if s.main == Drained then TakeAfterDrain else TakeAfterClose;
  }

  /** A step of `Serve` itself brings it further, and gives the drain no more time than the
      timeout. */
  lemma ServeStepDecreases(timeout: nat, s: State, step: Step)
    requires Inv(timeout, s) && Enabled(s, step) && IsServeStep(step)
    ensures Rank(Do(timeout, s, step).main) > Rank(s.main)
    ensures WorkerLeft(Do(timeout, s, step).worker) <= WorkerLeft(s.worker)
    ensures TimeLeft(timeout, Do(timeout, s, step)) <= TimeLeft(timeout, s)
  {
  }

  /** The other steps leave `Serve` where it is. */
  lemma OtherStepDecreases(timeout: nat, s: State, step: Step)
    requires Inv(timeout, s) && Enabled(s, step) && !IsServeStep(step)
    ensures Rank(Do(timeout, s, step).main) == Rank(s.main)
    ensures Measure(timeout, Do(timeout, s, step)) <= Measure(timeout, s)
    ensures IsSystemStep(s, step) ==> Measure(timeout, Do(timeout, s, step)) < Measure(timeout, s)
  {
  }

  /** Every such step comes closer to the return, and no other step takes it away. */
  lemma SystemStepDecreases(timeout: nat, s: State, step: Step)
    requires Inv(timeout, s) && Enabled(s, step)
    ensures Measure(timeout, Do(timeout, s, step)) <= Measure(timeout, s)
    ensures IsSystemStep(s, step) ==> Measure(timeout, Do(timeout, s, step)) < Measure(timeout, s)
  {
    if IsServeStep(step) {
      ServeStepDecreases(timeout, s, step);
    } else {
      OtherStepDecreases(timeout, s, step);
    }
  }

  /** The number of system steps among those from `k` to `n`. */
  function SystemSteps(states: seq<State>, steps: seq<Step>, k: nat, n: nat): nat
    requires k <= n <= |steps| <= |states|
  {
    if n == k then 0
    else SystemSteps(states, steps, k, n - 1) + (if IsSystemStep(states[n - 1], steps[n - 1]) then 1 else 0)
  }

  lemma {:induction false} SystemStepsExactly(states: seq<State>, steps: seq<Step>, k: nat, n: nat)
    requires k <= n <= |steps| <= |states|
    ensures SystemSteps(states, steps, k, n) == |set i | k <= i < n && IsSystemStep(states[i], steps[i])|
  {
    var all := set i | k <= i < n && IsSystemStep(states[i], steps[i]);
    if n == k {
      assert all == {};
    } else {
      SystemStepsExactly(states, steps, k, n - 1);
      var init := set i | k <= i < n - 1 && IsSystemStep(states[i], steps[i]);
      assert all == init + (if IsSystemStep(states[n - 1], steps[n - 1]) then {n - 1} else {});
    }
  }

  /** From any point a run takes at most `13 + timeout` more system steps. */
  lemma {:induction false} BoundedReturn(timeout: nat, states: seq<State>, steps: seq<Step>, k: nat, n: nat)
    requires IsRun(timeout, states, steps) && k <= n <= |steps|
    ensures SystemSteps(states, steps, k, n) + Measure(timeout, states[n]) <= Measure(timeout, states[k])
    ensures SystemSteps(states, steps, k, n) <= 13 + timeout
  {
    RunKeeps(timeout, states, steps, k);
    if k < n {
      BoundedReturn(timeout, states, steps, k, n - 1);
      RunKeeps(timeout, states, steps, n - 1);
      SystemStepDecreases(timeout, states[n - 1], steps[n - 1]);
    }
  }

  // ----- the drain's context -----

  /** Had the timeout been put on the caller's own context, a drain, which begins only after
      cancellation, could fail at once whatever the timeout. */
  lemma AttachedWouldFailAtOnce(timeout: nat, s: State, deadline: nat)
    requires Inv(timeout, s) && s.main == Draining
    ensures Enabled(s.(drain := WithTimeout(Parent, deadline)), FailShutdown(DeadlineExceeded))
    ensures Enabled(s, FailShutdown(DeadlineExceeded)) <==> s.now >= s.drain.deadline
  {
    assert OnDrainBranch(s.main);
    ExpiresByDeadline(s.drain, s.cancelled, s.now);
  }
}
