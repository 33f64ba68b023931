/** How often the stream reconnects and how long it sleeps. */
module SseRetry {
  import opened Wrappers
  import opened Text
  import opened SseParser
  import opened SseClient
  import opened SseDelay

  function AtLeastOne(n: int): nat {
    if n < 1 then 1 else n
  }

  /** With a limit N there are at most max(1, N) requests, one fewer sleeps, and the
      stream has stopped once the outside world has answered that often. Each attempt makes
      a request, but for the one that throws. */
  lemma {:induction false} RetryLimit<J>(config: Config, answers: seq<Answer<J>>)
    requires config.maxAttempts.Some?
    ensures var c := Run(config, answers);
            var limit := AtLeastOne(config.maxAttempts.value);
            && |c.requested| + (if c.status.Thrown? then 1 else 0) == c.attempt <= limit
            && |c.sleeps| < limit
            && (c.status == Running ==> c.attempt == |answers| == |c.sleeps|)
            && (|answers| >= limit ==> c.status != Running)
  {
    if answers != [] { RetryLimit(config, answers[..|answers| - 1]); }
  }

  /** The limit is reached when no request ever yields a stream. */
  lemma {:induction false} RetryLimitReached<J>(config: Config, answers: seq<Answer<J>>)
    requires config.maxAttempts.Some?
    requires forall i :: 0 <= i < |answers| ==> answers[i] == Failure
    ensures var c := Run(config, answers);
            var limit := AtLeastOne(config.maxAttempts.value);
            && c.status == (if |answers| < limit then Running else GaveUp)
            && c.attempt == |c.requested| == (if |answers| < limit then |answers| else limit)
            && c.reader.lastEventId.None?
  {
    if answers != [] {
      var init := answers[..|answers| - 1];
      assert answers[|answers| - 1] == Failure;
      RetryLimitReached(config, init);
    }
  }

  // ----- one backoff -----

  lemma {:induction false} DoubledSign(delay: real, n: nat)
    ensures delay > 0.0 ==> Doubled(delay, n) > 0.0
    ensures delay == 0.0 ==> Doubled(delay, n) == 0.0
    ensures delay < 0.0 ==> Doubled(delay, n) < 0.0
  {
    if n > 0 { DoubledSign(delay, n - 1); }
  }

  lemma {:induction false} DoubledGrows(delay: real, n: nat, m: nat)
    requires delay >= 0.0 && n <= m
    ensures Doubled(delay, n) <= Doubled(delay, m)
  {
    if n < m {
      DoubledGrows(delay, n, m - 1);
      DoubledSign(delay, m - 1);
    }
  }

  /** A number of attempts after which a zero delay has been doubled too often. */
  const LATE := 1024

  predicate Within(x: Number, cap: real) {
    x.Finite? && 0.0 <= x.value <= cap
  }

  /** The delay gives the given attempt a sleep: a zero delay does so only while the power
      of two is finite. */
  predicate Admissible(delay: real, attempt: nat) {
    delay > 0.0 || (delay == 0.0 && attempt <= LATE)
  }

  /** A backoff lies between 0 and the cap exactly when the delay is positive, or zero within
      the first 1024 attempts; after that it is not a number. */
  lemma BackoffBounds(retryDelay: real, attempt: nat, cap: real)
    requires attempt > 0 && cap >= 0.0
    ensures Within(Backoff(retryDelay, attempt, cap), cap) <==> Admissible(retryDelay, attempt)
    ensures Backoff(retryDelay, attempt, cap).NaN? <==> retryDelay == 0.0 && attempt > LATE
  {
    DoubledSign(retryDelay, attempt - 1);
  }

  predicate AtMost(x: Number, y: Number) {
    x.Finite? && y.Finite? && x.value <= y.value
  }

  /** A later backoff for the same delay is not shorter, as long as it is a number. */
  lemma BackoffGrows(retryDelay: real, attempt: nat, later: nat, cap: real)
    requires 0 < attempt <= later && retryDelay >= 0.0
    ensures AtMost(Backoff(retryDelay, attempt, cap), Backoff(retryDelay, later, cap)) <==>
            Admissible(retryDelay, later)
  {
    DoubledGrows(retryDelay, attempt - 1, later - 1);
  }

  // ----- the sleeps of a run -----

  lemma {:induction false} SleepsCount<J>(config: Config, answers: seq<Answer<J>>)
    ensures var c := Run(config, answers);
            |c.sleeps| <= |answers| && (c.status == Running ==> c.attempt == |answers| == |c.sleeps|)
  {
    if answers != [] { SleepsCount(config, answers[..|answers| - 1]); }
  }

  lemma {:induction false} SleepsGrow<J>(config: Config, answers: seq<Answer<J>>, k: nat)
    requires k <= |answers|
    ensures Run(config, answers[..k]).sleeps <= Run(config, answers).sleeps
  {
    if k < |answers| {
      var init := answers[..|answers| - 1];
      assert init[..k] == answers[..k];
      SleepsGrow(config, init, k);
    } else {
      assert answers[..k] == answers;
    }
  }

  /** The delay in force when the i-th sleep begins. */
  function DelayAt<J>(config: Config, answers: seq<Answer<J>>, i: nat): real
    requires i < |answers|
  {
    Run(config, answers[..i + 1]).reader.retryDelay
  }

  /** The sleep that the last answer adds. */
  lemma LastSleepIs<J>(config: Config, answers: seq<Answer<J>>, i: nat)
    requires answers != [] && |Run(config, answers[..|answers| - 1]).sleeps| <= i < |Run(config, answers).sleeps|
    ensures i == |answers| - 1
    ensures Run(config, answers).sleeps[i] ==
            Backoff(Run(config, answers).reader.retryDelay, i + 1, config.Cap())
  {
    SleepsCount(config, answers[..|answers| - 1]);
  }

  /** Every sleep of a run is the backoff for the delay then in force and its own number:
      a connection that worked for a while does not reset the count. */
  lemma {:induction false} SleepIs<J>(config: Config, answers: seq<Answer<J>>, i: nat)
    requires i < |Run(config, answers).sleeps|
    ensures i < |answers| && i + 1 <= |Run(config, answers[..i + 1]).sleeps|
    ensures Run(config, answers).sleeps[i] == Backoff(DelayAt(config, answers, i), i + 1, config.Cap())
  {
    SleepsCount(config, answers);
    var init := answers[..|answers| - 1];
    if i < |Run(config, init).sleeps| {
      SleepIs(config, init, i);
      assert init[..i + 1] == answers[..i + 1];
      SleepsGrow(config, answers, |init|);
    } else {
      LastSleepIs(config, answers, i);
      assert answers[..i + 1] == answers;
    }
  }

  /** Each sleep lies between 0 and the cap exactly when the delay in force was positive, or
      zero within the first 1024 attempts. */
  lemma SleepWithinExactly<J>(config: Config, answers: seq<Answer<J>>, i: nat)
    requires config.Cap() >= 0.0 && i < |Run(config, answers).sleeps|
    ensures i < |answers|
    ensures Within(Run(config, answers).sleeps[i], config.Cap()) <==> Admissible(DelayAt(config, answers, i), i + 1)
  {
    SleepIs(config, answers, i);
    BackoffBounds(DelayAt(config, answers, i), i + 1, config.Cap());
  }

  // ----- stretches without a new delay -----

  /** No block of the answers sets a delay. */
  predicate NoDelays<J(==)>(answers: seq<Answer<J>>) {
    forall a, b :: a in answers && a.Blocks? && b in a.blocks ==> b.retry.None?
  }

  lemma {:induction false} DelayStays<J>(r: Reader<J>, blocks: seq<Block<J>>)
    requires forall b :: b in blocks ==> b.retry.None?
    ensures DispatchAll(r, blocks).retryDelay == r.retryDelay
  {
    if blocks != [] {
      DelayStays(r, blocks[..|blocks| - 1]);
      assert blocks[|blocks| - 1] in blocks;
    }
  }

  lemma DelayOfTurn<J>(config: Config, c: Client<J>, a: Answer<J>)
    requires a.Blocks? ==> forall b :: b in a.blocks ==> b.retry.None?
    ensures Turn(config, c, a).reader.retryDelay == c.reader.retryDelay
  {
    if a.Blocks? { DelayStays(c.reader, a.blocks); }
  }

  lemma {:induction false} DelayKept<J>(config: Config, answers: seq<Answer<J>>, k: nat)
    requires k <= |answers| && NoDelays(answers[k..])
    ensures Run(config, answers).reader.retryDelay == Run(config, answers[..k]).reader.retryDelay
  {
    if k < |answers| {
      var n := |answers| - 1;
      var (init, last) := (answers[..n], answers[n]);
      assert answers[k..][n - k] == last;
      assert NoDelays(init[k..]) by { assert forall a :: a in init[k..] ==> a in answers[k..]; }
      assert init[..k] == answers[..k];
      DelayKept(config, init, k);
      DelayOfTurn(config, Run(config, init), last);
      assert Run(config, answers) == Turn(config, Run(config, init), last);
    } else {
      assert answers[..k] == answers;
    }
  }

  /** From any point on, while no delay arrives, every sleep is the capped doubling of the
      delay then in force. */
  lemma SleepsAreDoublings<J>(config: Config, answers: seq<Answer<J>>, k: nat, i: nat)
    requires k <= |answers| && NoDelays(answers[k..])
    requires |Run(config, answers[..k]).sleeps| <= i < |Run(config, answers).sleeps|
    ensures Run(config, answers).sleeps[i] ==
            Backoff(Run(config, answers[..k]).reader.retryDelay, i + 1, config.Cap())
  {
    SleepIs(config, answers, i);
    var now := answers[..i + 1];
    if i + 1 < k {
      assert answers[..k][..i + 1] == now;
      SleepsGrow(config, answers[..k], i + 1);
    } else {
      assert now[..k] == answers[..k];
      assert NoDelays(now[k..]) by { assert forall a :: a in now[k..] ==> a in answers[k..]; }
      DelayKept(config, now, k);
    }
  }

  /** So from any point on backoffs never shrink while no delay arrives: for a delay that is
      not negative, exactly as long as the later one is a number. */
  lemma SleepsNeverShrink<J>(config: Config, answers: seq<Answer<J>>, k: nat, i: nat, j: nat)
    requires k <= |answers| && NoDelays(answers[k..])
    requires |Run(config, answers[..k]).sleeps| <= i <= j < |Run(config, answers).sleeps|
    requires Run(config, answers[..k]).reader.retryDelay >= 0.0
    ensures AtMost(Run(config, answers).sleeps[i], Run(config, answers).sleeps[j]) <==>
            Admissible(Run(config, answers[..k]).reader.retryDelay, j + 1)
  {
    SleepsAreDoublings(config, answers, k, i);
    SleepsAreDoublings(config, answers, k, j);
    BackoffGrows(Run(config, answers[..k]).reader.retryDelay, i + 1, j + 1, config.Cap());
  }

  // ----- the default delays -----

  const DEFAULT_SLEEPS := [3000.0, 6000.0, 12000.0, 24000.0]

  lemma DefaultBackoff(n: nat)
    ensures Backoff(3000.0, n + 1, 30000.0) == Finite(if n < 4 then DEFAULT_SLEEPS[n] else 30000.0)
  {
    assert Doubled(3000.0, 1) == 6000.0 && Doubled(3000.0, 2) == 12000.0;
    assert Doubled(3000.0, 3) == 24000.0 && Doubled(3000.0, 4) == 48000.0;
    if n >= 4 { DoubledGrows(3000.0, 4, n); }
  }

  lemma {:induction false} StillTrying<J>(config: Config, answers: seq<Answer<J>>)
    requires config.maxAttempts.None? && forall i :: 0 <= i < |answers| ==> answers[i] == Failure
    ensures Run(config, answers).status == Running && Run(config, answers).reader == Start<J>(config).reader
  {
    if answers != [] { StillTrying(config, answers[..|answers| - 1]); }
  }

  /** A client that gets no stream doubles the delay it is given, up to the cap it is given. */
  lemma SleepsAsConfigured<J>(delay: real, cap: real, answers: seq<Answer<J>>, i: nat)
    requires i < |answers| && forall k :: 0 <= k < |answers| ==> answers[k] == Failure
    ensures var c := Run(Config(Some(delay), None, Some(cap)), answers);
            c.status == Running && |c.sleeps| == |answers| && c.sleeps[i] == Backoff(delay, i + 1, cap)
  {
    var config := Config(Some(delay), None, Some(cap));
    StillTrying(config, answers);
    SleepsCount(config, answers);
    SleepIs(config, answers, i);
    StillTrying(config, answers[..i + 1]);
  }

  /** Unless configured otherwise, a client that gets no stream sleeps 3, 6, 12 and 24 seconds and
      then 30 seconds each time, without end. */
  lemma SleepsByDefault<J>(answers: seq<Answer<J>>, i: nat)
    requires i < |answers| && forall k :: 0 <= k < |answers| ==> answers[k] == Failure
    ensures var c := Run(Config(None, None, None), answers);
            && c.status == Running && |c.sleeps| == |answers|
            && c.sleeps[i] == Finite(if i < 4 then DEFAULT_SLEEPS[i] else 30000.0)
  {
    var config := Config(None, None, None);
    StillTrying(config, answers);
    SleepsCount(config, answers);
    SleepIs(config, answers, i);
    StillTrying(config, answers[..i + 1]);
    DefaultBackoff(i);
  }

  // ----- the time slept -----

  /** Neither the first delay nor one set by a block is negative. */
  predicate NonNegativeDelays<J(==)>(config: Config, answers: seq<Answer<J>>) {
    config.InitialDelay() >= 0.0 &&
    forall a, b :: a in answers && a.Blocks? && b in a.blocks ==> b.retry.None? || b.retry.value >= 0
  }

  /** Nor is one of them zero. */
  predicate PositiveDelays<J(==)>(config: Config, answers: seq<Answer<J>>) {
    config.InitialDelay() > 0.0 &&
    forall a, b :: a in answers && a.Blocks? && b in a.blocks ==> b.retry.None? || b.retry.value > 0
  }

  lemma {:induction false} DispatchedDelay<J>(r: Reader<J>, blocks: seq<Block<J>>)
    ensures r.retryDelay >= 0.0 && (forall b :: b in blocks ==> b.retry.None? || b.retry.value >= 0) ==>
              DispatchAll(r, blocks).retryDelay >= 0.0
    ensures r.retryDelay > 0.0 && (forall b :: b in blocks ==> b.retry.None? || b.retry.value > 0) ==>
              DispatchAll(r, blocks).retryDelay > 0.0
  {
    if blocks != [] {
      DispatchedDelay(r, blocks[..|blocks| - 1]);
      assert blocks[|blocks| - 1] in blocks;
    }
  }

  lemma {:induction false} DelaysStay<J>(config: Config, answers: seq<Answer<J>>)
    ensures NonNegativeDelays(config, answers) ==> Run(config, answers).reader.retryDelay >= 0.0
    ensures PositiveDelays(config, answers) ==> Run(config, answers).reader.retryDelay > 0.0
  {
    if answers != [] {
      var (init, last) := (answers[..|answers| - 1], answers[|answers| - 1]);
      assert forall a :: a in init ==> a in answers;
      assert last in answers;
      DelaysStay(config, init);
      if last.Blocks? { DispatchedDelay(Run(config, init).reader, last.blocks); }
    }
  }

  /** Without negative delays every sleep lies between 0 and the cap; if a delay can be zero,
      within the first 1024 attempts. */
  lemma SleepsWithinCap<J>(config: Config, answers: seq<Answer<J>>, i: nat)
    requires config.Cap() >= 0.0 && i < |Run(config, answers).sleeps|
    requires PositiveDelays(config, answers) || (NonNegativeDelays(config, answers) && i < LATE)
    ensures Within(Run(config, answers).sleeps[i], config.Cap())
  {
    SleepWithinExactly(config, answers, i);
    var now := answers[..i + 1];
    assert forall a :: a in now ==> a in answers;
    DelaysStay(config, now);
  }

  function Sum(xs: seq<Number>): real {
    if xs == [] then 0.0
    else Sum(xs[..|xs| - 1]) + if xs[|xs| - 1].Finite? then xs[|xs| - 1].value else 0.0
  }

  /** `n` times the cap. */
  function Caps(n: nat, cap: real): real {
    if n == 0 then 0.0 else Caps(n - 1, cap) + cap
  }

  lemma SumExactly(xs: seq<Number>, x: real)
    ensures Sum([]) == 0.0 && Sum(xs + [Finite(x)]) == Sum(xs) + x
  {
    assert (xs + [Finite(x)])[..|xs|] == xs;
  }

  lemma {:induction false} CapsExactly(n: nat, cap: real)
    ensures Caps(n, cap) == n as real * cap
  {
    if n > 0 {
      CapsExactly(n - 1, cap);
      var m := (n - 1) as real;
      assert n as real == m + 1.0 && (m + 1.0) * cap == m * cap + cap;
    }
  }

  lemma {:induction false} SumWithin(xs: seq<Number>, n: nat, cap: real)
    requires cap >= 0.0 && |xs| <= n && forall i :: 0 <= i < |xs| ==> Within(xs[i], cap)
    ensures 0.0 <= Sum(xs) <= Caps(n, cap)
  {
    if |xs| < n {
      SumWithin(xs, n - 1, cap);
    } else if xs != [] {
      assert Within(xs[n - 1], cap);
      SumWithin(xs[..n - 1], n - 1, cap);
    }
  }

  /** So a limit N bounds the time slept by one cap for each request after the first. */
  lemma TotalSleepBound<J>(config: Config, answers: seq<Answer<J>>)
    requires config.Cap() >= 0.0 && config.maxAttempts.Some?
    requires PositiveDelays(config, answers) ||
             (NonNegativeDelays(config, answers) && config.maxAttempts.value <= LATE + 1)
    ensures var sleeps := Run(config, answers).sleeps;
            && (forall i :: 0 <= i < |sleeps| ==> Within(sleeps[i], config.Cap()))
            && 0.0 <= Sum(sleeps) <= Caps(AtLeastOne(config.maxAttempts.value) - 1, config.Cap())
  {
    RetryLimit(config, answers);
    var sleeps := Run(config, answers).sleeps;
    forall i | 0 <= i < |sleeps| ensures Within(sleeps[i], config.Cap()) {
      SleepsWithinCap(config, answers, i);
    }
    SumWithin(sleeps, AtLeastOne(config.maxAttempts.value) - 1, config.Cap());
  }

  // ----- negative delays -----

  lemma FieldOfOneLine(line: string, field: string)
    requires field <= line
    ensures FieldValues([line], field) == [StripLeft(line[|field|..])]
  {
    assert [line][..0] == [];
  }

  lemma StripLeftOnce(s: string)
    requires |s| >= 2 && IsJsSpace(s[0]) && !IsJsSpace(s[1])
    ensures StripLeft(s) == s[1..]
  {
    assert StripLeft(s[1..]) == s[1..];
  }

  /** A `retry:` line with an integer's text sets that integer. */
  lemma RetryLine<J>(hooks: Hooks<J>, n: int)
    ensures ParseBlock(hooks, "retry: " + IntText(n)).retry == Some(n)
  {
    var line := "retry: " + IntText(n);
    IntTextIsPlain(n);
    CharAbsent(line, '\n');
    assert Split(line, "\n") == [line];
    FieldOfOneLine(line, "retry:");
    assert line[6..] == " " + IntText(n);
    StripLeftOnce(" " + IntText(n));
    assert (" " + IntText(n))[1..] == IntText(n);
    ParseIntText(n);
    assert LastNumber([IntText(n)]) == Some(n);
  }

  /** So a server may send any negative delay, and every backoff is then below zero whatever
      the cap. */
  lemma NegativeDelay<J>(hooks: Hooks<J>, n: int, attempt: nat, cap: real)
    requires n < 0 && attempt > 0
    ensures ParseBlock(hooks, "retry: " + IntText(n)).retry == Some(n)
    ensures var b := Backoff(n as real, attempt, cap); b.MinusInfinity? || (b.Finite? && b.value < 0.0)
  {
    RetryLine(hooks, n);
    DoubledSign(n as real, attempt - 1);
  }
}
