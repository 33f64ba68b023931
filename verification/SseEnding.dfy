/** How a run ends: when it completes, stops, throws or gives up, and what it has done by then. */
module SseEnding {
  import opened Wrappers
  import opened SseParser
  import opened SseClient

  // ----- what one connection comes to -----

  predicate Rejects<J>(blocks: seq<Block<J>>) {
    exists k :: 0 <= k < |blocks| && blocks[k].payload.Rejected?
  }

  /** A connection fails in a callback exactly when one of its blocks is rejected. */
  lemma {:induction false} FailsExactly<J>(r: Reader<J>, blocks: seq<Block<J>>)
    requires !r.failed
    ensures DispatchAll(r, blocks).failed <==> Rejects(blocks)
  {
    if blocks != [] {
      var n := |blocks| - 1;
      FailsExactly(r, blocks[..n]);
      if Rejects(blocks[..n]) {
        var k :| 0 <= k < n && blocks[..n][k].payload.Rejected?;
        assert blocks[k].payload.Rejected?;
      }
    }
  }

  /** The connection is read to a normal end, and every callback accepts what it gets. */
  predicate Completes<J>(a: Answer<J>) {
    a.Blocks? && a.ending.Done? && !Rejects(a.blocks)
  }

  lemma {:induction false} NeverFailed<J>(config: Config, answers: seq<Answer<J>>)
    ensures !Run(config, answers).reader.failed
  {
    if answers != [] { NeverFailed(config, answers[..|answers| - 1]); }
  }

  // ----- the end of a run -----

  predicate LimitReached(config: Config, attempts: nat) {
    config.maxAttempts.Some? && attempts >= config.maxAttempts.value
  }

  predicate SendableAt<J>(config: Config, answers: seq<Answer<J>>, i: nat)
    requires i <= |answers|
  {
    CanSend(Run(config, answers[..i]).reader.lastEventId)
  }

  /** The loop goes on behind the i-th answer. */
  predicate GoesOn<J>(config: Config, answers: seq<Answer<J>>, i: nat)
    requires i < |answers|
  {
    !answers[i].Stop? && SendableAt(config, answers, i) && !Completes(answers[i]) && !LimitReached(config, i + 1)
  }

  /** With i answers behind it the run has made i requests, each with the id recorded by then,
      and slept i times. */
  predicate MidRun<J(==)>(config: Config, answers: seq<Answer<J>>, c: Client<J>) {
    c.attempt == |c.requested| == |c.sleeps| == |answers| && Requested(config, answers, c.requested)
  }

  /** What ends the loop at the i-th answer, and how. */
  predicate EndsAt<J>(config: Config, answers: seq<Answer<J>>, i: nat, status: Status) {
    && i < |answers| && (forall j :: 0 <= j < i ==> GoesOn(config, answers, j))
    && match status
       case Running => false
       case Stopped => answers[i].Stop?
       case Thrown => !answers[i].Stop? && !SendableAt(config, answers, i)
       case Completed => SendableAt(config, answers, i) && Completes(answers[i])
       case GaveUp =>
         !answers[i].Stop? && SendableAt(config, answers, i) && !Completes(answers[i]) && LimitReached(config, i + 1)
  }

  /** At its end the run has slept once behind each answer that it went on from; a run that is
      stopped or throws makes no further request. */
  predicate EndsLike<J(==)>(config: Config, answers: seq<Answer<J>>, i: nat, c: Client<J>)
    requires i < |answers|
  {
    && |c.sleeps| == i
    && |c.requested| == (if c.status.Stopped? || c.status.Thrown? then i else i + 1)
    && c.attempt == (if c.status.Stopped? then i else i + 1)
    && Requested(config, answers, c.requested)
  }

  lemma TurnCounts<J>(config: Config, c: Client<J>, a: Answer<J>)
    requires c.status == Running && !c.reader.failed
    ensures var d := Turn(config, c, a);
            var sent := !a.Stop? && CanSend(c.reader.lastEventId);
            && d.attempt == (if a.Stop? then c.attempt else c.attempt + 1)
            && d.requested == (if sent then c.requested + [Sent(c.reader.lastEventId)] else c.requested)
            && |d.sleeps| == (if d.status == Running then |c.sleeps| + 1 else |c.sleeps|)
            && d.status == (if a.Stop? then Stopped
                            else if !sent then Thrown
                            else if Completes(a) then Completed
                            else if LimitReached(config, c.attempt + 1) then GaveUp
                            else Running)
  {
    if a.Blocks? { FailsExactly(c.reader, a.blocks); }
  }

  /** The requests so far, each with the id recorded before it. */
  predicate Requested<J(==)>(config: Config, answers: seq<Answer<J>>, requested: seq<Option<string>>) {
    && |requested| <= |answers|
    && forall k :: 0 <= k < |requested| ==> requested[k] == Sent(Run(config, answers[..k]).reader.lastEventId)
  }

  lemma RequestedNext<J>(config: Config, answers: seq<Answer<J>>, n: nat, requested: seq<Option<string>>)
    requires n + 1 == |answers| && |requested| == n && Requested(config, answers[..n], requested)
    ensures Requested(config, answers, requested)
    ensures Requested(config, answers, requested + [Sent(Run(config, answers[..n]).reader.lastEventId)])
  {
    assert forall i :: 0 <= i <= n ==> answers[..n][..i] == answers[..i];
  }

  /** The last answer of a run that was still going on before it. */
  lemma LastTurn<J>(config: Config, answers: seq<Answer<J>>, n: nat)
    requires n + 1 == |answers| && Run(config, answers[..n]).status == Running
    requires MidRun(config, answers[..n], Run(config, answers[..n]))
    requires forall j :: 0 <= j < n ==> GoesOn(config, answers, j)
    ensures var c := Run(config, answers);
            if c.status == Running then GoesOn(config, answers, n) && MidRun(config, answers, c)
            else EndsAt(config, answers, n, c.status) && EndsLike(config, answers, n, c)
  {
    NeverFailed(config, answers[..n]);
    var before := Run(config, answers[..n]);
    TurnCounts(config, before, answers[n]);
    assert Run(config, answers) == Turn(config, before, answers[n]);
    RequestedNext(config, answers, n, before.requested);
  }

  /** A run is still going on exactly when every answer lets it go on. */
  lemma {:induction false} RunningExactly<J>(config: Config, answers: seq<Answer<J>>)
    ensures Run(config, answers).status == Running <==> forall i :: 0 <= i < |answers| ==> GoesOn(config, answers, i)
    ensures Run(config, answers).status == Running ==> MidRun(config, answers, Run(config, answers))
  {
    if answers != [] {
      var n := |answers| - 1;
      var init := answers[..n];
      RunningExactly(config, init);
      assert forall i :: 0 <= i <= n ==> init[..i] == answers[..i];
      assert forall i :: 0 <= i < n ==> (GoesOn(config, init, i) <==> GoesOn(config, answers, i));
      if Run(config, init).status == Running {
        LastTurn(config, answers, n);
        if Run(config, answers).status != Running { assert !GoesOn(config, answers, n); }
      }
    }
  }

  lemma EndedAt<J>(config: Config, answers: seq<Answer<J>>, i: nat, status: Status)
    requires EndsAt(config, answers, i, status)
    ensures var c := Run(config, answers);
            c == Run(config, answers[..i + 1]) && c.status == status && EndsLike(config, answers, i, c)
  {
    var (init, now) := (answers[..i], answers[..i + 1]);
    assert now[..i] == init;
    assert forall j :: 0 <= j <= i ==> init[..j] == answers[..j] && now[..j] == answers[..j];
    assert forall j :: 0 <= j < i ==> (GoesOn(config, init, j) <==> GoesOn(config, answers, j));
    assert forall j :: 0 <= j < i ==> (GoesOn(config, now, j) <==> GoesOn(config, answers, j));
    RunningExactly(config, init);
    LastTurn(config, now, i);
    StoppedStays(config, answers, i + 1);
  }

  lemma {:induction false} EndedSomewhere<J>(config: Config, answers: seq<Answer<J>>) returns (i: nat)
    requires Run(config, answers).status != Running
    ensures EndsAt(config, answers, i, Run(config, answers).status)
  {
    var n := |answers| - 1;
    var init := answers[..n];
    assert forall j :: 0 <= j <= n ==> init[..j] == answers[..j];
    assert forall j :: 0 <= j < n ==> (GoesOn(config, init, j) <==> GoesOn(config, answers, j));
    RunningExactly(config, init);
    if Run(config, init).status == Running {
      LastTurn(config, answers, n);
      i := n;
    } else {
      i := EndedSomewhere(config, init);
    }
  }

  /** A run ends in a status exactly where some answer ends it so: it completes when, still
      going on and with an id that can be sent, it reads a connection to its normal end and no
      callback rejects anything. What comes after that answer changes nothing. */
  lemma EndsExactly<J>(config: Config, answers: seq<Answer<J>>, status: Status)
    requires status != Running
    ensures Run(config, answers).status == status <==> exists i: nat :: EndsAt(config, answers, i, status)
    ensures forall i: nat :: EndsAt(config, answers, i, status) ==>
              Run(config, answers) == Run(config, answers[..i + 1]) &&
              EndsLike(config, answers, i, Run(config, answers))
  {
    if Run(config, answers).status == status {
      var i := EndedSomewhere(config, answers);
    }
    forall i: nat | EndsAt(config, answers, i, status)
      ensures Run(config, answers).status == status
      ensures Run(config, answers) == Run(config, answers[..i + 1])
      ensures EndsLike(config, answers, i, Run(config, answers))
    {
      EndedAt(config, answers, i, status);
    }
  }

  // ----- what the world does, and how it ends a run -----

  /** Some callback throws on what one of the texts says. */
  predicate ThrowsOn<J>(hooks: Hooks<J>, texts: seq<string>) {
    exists k :: 0 <= k < |texts| && ParseBlock(hooks, texts[k]).payload.Rejected?
  }

  lemma RejectsExactly<J>(hooks: Hooks<J>, texts: seq<string>)
    ensures Rejects(ParseAll(hooks, texts)) <==> ThrowsOn(hooks, texts)
  {
    var blocks := ParseAll(hooks, texts);
    if Rejects(blocks) {
      var k :| 0 <= k < |blocks| && blocks[k].payload.Rejected?;
      assert blocks[k] == ParseBlock(hooks, texts[k]);
    }
    if ThrowsOn(hooks, texts) {
      var k :| 0 <= k < |texts| && ParseBlock(hooks, texts[k]).payload.Rejected?;
      assert blocks[k] == ParseBlock(hooks, texts[k]);
    }
  }

  /** An aborted signal is a stop, a request without a stream is a failure, and a stream completes
      a run when it ends normally and no callback throws on what it says. */
  lemma AttemptsExactly<J>(hooks: Hooks<J>, a: Attempt)
    ensures AnswerOf(hooks, a).Stop? <==> a.Aborted?
    ensures AnswerOf(hooks, a).Failure? <==> a.NoStream?
    ensures Completes(AnswerOf(hooks, a)) <==>
            a.Stream? && a.ending.Done? && !ThrowsOn(hooks, FeedAll(a.chunks).0)
  {
    if a.Stream? { RejectsExactly(hooks, FeedAll(a.chunks).0); }
  }

  /** A client that finds its signal aborted stops as it is: it makes no further request, sleeps
      no more, and shows nothing more, whatever the world goes on to do. */
  lemma AbortStops<J>(config: Config, hooks: Hooks<J>, script: seq<Attempt>, i: nat)
    requires i < |script| && script[i].Aborted?
    requires Run(config, Answers(hooks, script[..i])).status == Running
    ensures Run(config, Answers(hooks, script)) == Run(config, Answers(hooks, script[..i])).(status := Stopped)
  {
    var answers := Answers(hooks, script);
    assert answers[..i] == Answers(hooks, script[..i]);
    assert answers[..i + 1][..i] == answers[..i] && answers[..i + 1][i] == AnswerOf(hooks, script[i]);
    assert Run(config, answers[..i + 1]) == Turn(config, Run(config, answers[..i]), answers[i]);
    StoppedStays(config, answers, i + 1);
  }
}
