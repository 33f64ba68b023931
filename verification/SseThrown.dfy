/** Ids that no header can carry: recording one ends the stream at the next request. */
module SseThrown {
  import opened HeaderText
  import opened SseParser
  import opened SseClient
  import opened SseResume

  predicate SendableIds<J(==)>(blocks: seq<Block<J>>) {
    forall b :: b in blocks ==> CanSend(b.id)
  }

  predicate AllSendable<J(==)>(answers: seq<Answer<J>>) {
    forall a :: a in answers && a.Blocks? ==> SendableIds(a.blocks)
  }

  lemma {:induction false} StaysSendable<J>(r: Reader<J>, blocks: seq<Block<J>>)
    requires CanSend(r.lastEventId) && SendableIds(blocks)
    ensures CanSend(DispatchAll(r, blocks).lastEventId)
  {
    if blocks != [] {
      StaysSendable(r, blocks[..|blocks| - 1]);
      assert blocks[|blocks| - 1] in blocks;
    }
  }

  /** At its i-th answer the run, still going on, has an id to send that cannot be sent. */
  predicate ThrowsAt<J>(config: Config, answers: seq<Answer<J>>, i: int) {
    && 0 <= i < |answers| && !answers[i].Stop?
    && Run(config, answers[..i]).status == Running
    && !CanSend(Run(config, answers[..i]).reader.lastEventId)
  }

  lemma ThrowEnds<J>(config: Config, answers: seq<Answer<J>>, i: nat)
    requires ThrowsAt(config, answers, i)
    ensures Run(config, answers).status.Thrown?
    ensures Run(config, answers).reader == Run(config, answers[..i]).reader
  {
    var now := answers[..i + 1];
    assert now[..i] == answers[..i];
    assert Run(config, now) == Turn(config, Run(config, answers[..i]), answers[i]);
    StoppedStays(config, answers, i + 1);
  }

  lemma {:induction false} ThrownSomewhere<J>(config: Config, answers: seq<Answer<J>>) returns (i: nat)
    requires Run(config, answers).status.Thrown?
    ensures ThrowsAt(config, answers, i)
  {
    i := |answers| - 1;
    var init := answers[..i];
    if Run(config, init).status.Thrown? {
      i := ThrownSomewhere(config, init);
      assert init[..i] == answers[..i];
    }
  }

  /** A run throws exactly when, still running, it is to make a request while the id recorded
      last cannot be sent. Nothing received later is ever shown. */
  lemma ThrownExactly<J>(config: Config, answers: seq<Answer<J>>)
    ensures Run(config, answers).status.Thrown? <==> exists i :: ThrowsAt(config, answers, i)
    ensures forall i :: ThrowsAt(config, answers, i) ==>
              Run(config, answers).reader == Run(config, answers[..i]).reader
  {
    if Run(config, answers).status.Thrown? {
      var i := ThrownSomewhere(config, answers);
    }
    forall i | ThrowsAt(config, answers, i)
      ensures Run(config, answers).status.Thrown?
      ensures Run(config, answers).reader == Run(config, answers[..i]).reader
    {
      ThrowEnds(config, answers, i);
    }
  }

  /** A server whose ids all fit a header value never makes the stream throw. */
  lemma {:induction false} SendableNeverThrows<J>(config: Config, answers: seq<Answer<J>>)
    requires AllSendable(answers)
    ensures !Run(config, answers).status.Thrown? && CanSend(Run(config, answers).reader.lastEventId)
  {
    if answers != [] {
      var (init, last) := (answers[..|answers| - 1], answers[|answers| - 1]);
      assert AllSendable(init) by { assert forall a :: a in init ==> a in answers; }
      SendableNeverThrows(config, init);
      assert last in answers;
      if last.Blocks? { StaysSendable(Run(config, init).reader, last.blocks); }
    }
  }

  lemma NextRequest<J>(config: Config, answers: seq<Answer<J>>, next: Answer<J>, more: seq<Answer<J>>)
    requires Run(config, answers).status == Running && !next.Stop?
    ensures var r := Run(config, answers).reader;
            var after := Run(config, answers + [next] + more);
            && (Run(config, answers + [next]).status.Thrown? <==> !CanSend(r.lastEventId))
            && (!CanSend(r.lastEventId) ==> after.status.Thrown? && after.reader == r)
  {
    var (one, all) := (answers + [next], answers + [next] + more);
    assert one[..|answers|] == answers && all[..|one|] == one;
    assert Run(config, one) == Turn(config, Run(config, answers), next);
    if Run(config, one).status.Thrown? { StoppedStays(config, all, |one|); }
  }

  lemma AnswersAppend<J>(hooks: Hooks<J>, script: seq<Attempt>, next: Attempt, more: seq<Attempt>)
    ensures Answers(hooks, script + [next]) == Answers(hooks, script) + [AnswerOf(hooks, next)]
    ensures Answers(hooks, script + [next] + more) ==
            Answers(hooks, script) + [AnswerOf(hooks, next)] + Answers(hooks, more)
  {
  }

  /** Against an honest server: a client that has been through n entries and is still running
      throws at its next request exactly when the n-th id cannot be sent, and whatever the
      world does after that, it never sees the rest of the log. */
  lemma HonestRunThrowsExactly<J>(config: Config, hooks: Hooks<J>, log: seq<string>, script: seq<Attempt>,
                                  next: Attempt, more: seq<Attempt>) returns (n: nat)
    requires ValidLog(hooks, log) && Honest(config, hooks, log, script)
    requires Run(config, Answers(hooks, script)).status == Running && !next.Aborted?
    ensures CaughtUp(ParseAll(hooks, log), Run(config, Answers(hooks, script)).reader, n)
    ensures var blocks := ParseAll(hooks, log);
            var thrown := n > 0 && !IsHeaderValue(blocks[n - 1].id.value);
            var after := Run(config, Answers(hooks, script + [next] + more));
            && (Run(config, Answers(hooks, script + [next])).status.Thrown? <==> thrown)
            && (thrown ==> after.status.Thrown? && CaughtUp(blocks, after.reader, n))
  {
    n := ResumeSafety(config, hooks, log, script);
    AnswersAppend(hooks, script, next, more);
    NextRequest(config, Answers(hooks, script), AnswerOf(hooks, next), Answers(hooks, more));
  }
}
