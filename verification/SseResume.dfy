/** Resuming: whatever the cuts, the events shown to the consumer follow the
    server's log without gap or repetition. */
module SseResume {
  import opened Wrappers
  import opened Text
  import opened Induction
  import opened HeaderText
  import opened SseParser
  import opened SseWire
  import opened SseBreaks
  import opened SseExact
  import opened SseClient

  // ----- the server -----

  /** Every entry carries data, and a non-empty id of its own. */
  predicate Numbered<J(==)>(blocks: seq<Block<J>>) {
    && (forall i :: 0 <= i < |blocks| ==>
          blocks[i].payload != Absent && blocks[i].id.Some? && blocks[i].id.value != "")
    && (forall i, j :: 0 <= i < j < |blocks| ==> blocks[i].id != blocks[j].id)
  }

  /** No id has white space at its ends, which a header value cannot carry. */
  predicate TrimmedIds<J(==)>(blocks: seq<Block<J>>) {
    forall i :: 0 <= i < |blocks| && blocks[i].id.Some? ==> IsTrimmed(blocks[i].id.value)
  }

  predicate ValidBlocks<J(==)>(blocks: seq<Block<J>>) {
    Numbered(blocks) && TrimmedIds(blocks)
  }

  predicate ValidLog<J(==)>(hooks: Hooks<J>, log: seq<string>) {
    ValidEntries(log) && ValidBlocks(ParseAll(hooks, log))
  }

  /** The position after the entry, among the first `n`, that `Last-Event-ID` names;
      the start without one. */
  function ResumeAt<J>(blocks: seq<Block<J>>, sent: Option<string>, n: nat): (k: nat)
    requires n <= |blocks|
    ensures k <= n && (k > 0 ==> blocks[k - 1].id == sent)
  {
    if n == 0 || sent.None? || sent.value == "" then 0
    else if blocks[n - 1].id == sent then n
    else ResumeAt(blocks, sent, n - 1)
  }

  /** The chunks are the beginning of a replay, in some choice of line ends, cut off
      anywhere, and cutting CR LF pairs at the end of an entry only. */
  ghost predicate Served<J>(hooks: Hooks<J>, log: seq<string>, sent: Option<string>, chunks: seq<string>) {
    exists raw ::
      IsReplay(log, ResumeAt(ParseAll(hooks, log), sent, |log|), chunks, raw) && SafeCuts(chunks, raw)
  }

  ghost predicate Honest<J>(config: Config, hooks: Hooks<J>, log: seq<string>, script: seq<Attempt>) {
    forall i :: 0 <= i < |script| && script[i].Stream? ==>
      Served(hooks, log, Sent(Run(config, Answers(hooks, script[..i])).reader.lastEventId), script[i].chunks)
  }

  // ----- what the consumer should see -----

  function IdBefore<J>(blocks: seq<Block<J>>, n: nat): Option<string>
    requires n <= |blocks|
  {
    if n == 0 then None else blocks[n - 1].id
  }

  /** The data of those of the first `n` entries whose payload the callbacks accept, in log order. */
  function Accepted<J>(blocks: seq<Block<J>>, n: nat): seq<Data<J>>
    requires n <= |blocks|
  {
    if n == 0 then []
    else Accepted(blocks, n - 1) + (if blocks[n - 1].payload.Present? then [blocks[n - 1].payload.data] else [])
  }

  /** The reader has been through exactly the first `n` entries. */
  predicate CaughtUp<J(==)>(blocks: seq<Block<J>>, r: Reader<J>, n: nat) {
    n <= |blocks| && r.lastEventId == IdBefore(blocks, n) && r.yielded == Accepted(blocks, n)
  }

  // ----- blocks that say nothing -----

  /** The block carries no data and no id: a reader learns nothing from it. */
  predicate Idle<J>(b: Block<J>) {
    b.payload.Absent? && b.id.None?
  }

  function Telling<J>(blocks: seq<Block<J>>): seq<Block<J>> {
    if blocks == [] then []
    else
      var last := blocks[|blocks| - 1];
      Telling(blocks[..|blocks| - 1]) + if Idle(last) then [] else [last]
  }

  lemma TellingSnoc<J>(blocks: seq<Block<J>>, b: Block<J>)
    ensures Telling(blocks + [b]) == if Idle(b) then Telling(blocks) else Telling(blocks) + [b]
  {
    assert (blocks + [b])[..|blocks|] == blocks;
  }

  lemma {:induction false} AllTelling<J>(blocks: seq<Block<J>>)
    requires forall i :: 0 <= i < |blocks| ==> !Idle(blocks[i])
    ensures Telling(blocks) == blocks
  {
    if blocks != [] {
      var n := |blocks| - 1;
      AllTelling(blocks[..n]);
      assert blocks == blocks[..n] + [blocks[n]];
    }
  }

  lemma {:induction false} EmptyLineFirst(lines: seq<string>, field: string)
    requires field != ""
    ensures FieldValues([""] + lines, field) == FieldValues(lines, field)
  {
    if lines == [] {
      assert [""] + lines == [""] && [""][..0] == lines;
      assert FieldValue("", field) == [];
    } else {
      var n := |lines| - 1;
      EmptyLineFirst(lines[..n], field);
      assert ([""] + lines)[..|[""] + lines| - 1] == [""] + lines[..n];
    }
  }

  lemma SplitAfterFeed(rest: string)
    ensures Split("\n" + rest, "\n") == [""] + Split(rest, "\n")
  {
    var s := "\n" + rest;
    assert OccursAt(s, "\n", 0);
    IndexOfIsFirst(s, "\n", 0);
    assert s[..0] == "" && s[1..] == rest;
  }

  /** An empty line at the beginning of a block does not change what it says. */
  lemma BodySaysTheSame<J>(hooks: Hooks<J>, block: string)
    ensures ParseBlock(hooks, Body(block)) == ParseBlock(hooks, block)
  {
    if block != "" && block[0] == '\n' {
      var lines := Split(block[1..], "\n");
      assert block == "\n" + block[1..];
      SplitAfterFeed(block[1..]);
      EmptyLineFirst(lines, "data:");
      EmptyLineFirst(lines, "event:");
      EmptyLineFirst(lines, "id:");
      EmptyLineFirst(lines, "retry:");
    }
  }

  lemma EmptySaysNothing<J>(hooks: Hooks<J>)
    ensures Idle(ParseBlock(hooks, ""))
  {
    assert Split("", "\n") == [""];
    assert [""][..0] == [];
    assert FieldValue("", "data:") == [] && FieldValue("", "id:") == [];
  }

  lemma ParsedSnoc<J>(hooks: Hooks<J>, texts: seq<string>, last: string)
    ensures ParseAll(hooks, texts + [last]) == ParseAll(hooks, texts) + [ParseBlock(hooks, last)]
  {
  }

  lemma BodyMore<J>(hooks: Hooks<J>, init: seq<string>, last: string)
    requires Body(last) != ""
    ensures ParseAll(hooks, Bodies(init + [last])) == ParseAll(hooks, Bodies(init)) + [ParseBlock(hooks, last)]
  {
    BodiesSnoc(init, last);
    ParsedSnoc(hooks, Bodies(init), Body(last));
    BodySaysTheSame(hooks, last);
  }

  lemma NoBodyMore<J>(hooks: Hooks<J>, init: seq<string>, last: string)
    requires Body(last) == ""
    ensures Bodies(init + [last]) == Bodies(init) && Idle(ParseBlock(hooks, last))
  {
    BodiesSnoc(init, last);
    BodySaysTheSame(hooks, last);
    EmptySaysNothing(hooks);
  }

  lemma TellsOneMore<J>(hooks: Hooks<J>, init: seq<string>, last: string)
    requires Telling(ParseAll(hooks, init)) == Telling(ParseAll(hooks, Bodies(init)))
    ensures Telling(ParseAll(hooks, init + [last])) == Telling(ParseAll(hooks, Bodies(init + [last])))
  {
    var b := ParseBlock(hooks, last);
    ParsedSnoc(hooks, init, last);
    TellingSnoc(ParseAll(hooks, init), b);
    if Body(last) == "" {
      NoBodyMore(hooks, init, last);
    } else {
      BodyMore(hooks, init, last);
      TellingSnoc(ParseAll(hooks, Bodies(init)), b);
    }
  }

  ghost predicate TellsAlike<J>(hooks: Hooks<J>, texts: seq<string>) {
    Telling(ParseAll(hooks, texts)) == Telling(ParseAll(hooks, Bodies(texts)))
  }

  /** The extra blank lines of a cut leave idle blocks behind and nothing else. */
  lemma TellingBodies<J>(hooks: Hooks<J>, texts: seq<string>)
    ensures Telling(ParseAll(hooks, texts)) == Telling(ParseAll(hooks, Bodies(texts)))
  {
    forall init, last | TellsAlike(hooks, init) ensures TellsAlike(hooks, With(init, last)) {
      TellsOneMore(hooks, init, last);
    }
    var none: seq<string> := [];
    assert Bodies(none) == none;
    ElementByElement(some => TellsAlike(hooks, some), texts);
    assert TellsAlike(hooks, texts);
  }

  /** The readers agree on everything that resuming depends on. */
  predicate Agree<J(==)>(r: Reader<J>, s: Reader<J>) {
    r.lastEventId == s.lastEventId && r.yielded == s.yielded && r.failed == s.failed
  }

  lemma StillAgree<J>(r: Reader<J>, s: Reader<J>, b: Block<J>)
    requires Agree(r, s)
    ensures Agree(Dispatch(r, b), Dispatch(s, b))
    ensures Idle(b) ==> Agree(Dispatch(r, b), s)
  {
  }

  lemma DispatchSnoc<J>(r: Reader<J>, blocks: seq<Block<J>>, b: Block<J>)
    ensures DispatchAll(r, blocks + [b]) == Dispatch(DispatchAll(r, blocks), b)
  {
    assert (blocks + [b])[..|blocks|] == blocks;
  }

  lemma {:induction false} IdleBlocksDoNothing<J>(r: Reader<J>, blocks: seq<Block<J>>)
    ensures Agree(DispatchAll(r, blocks), DispatchAll(r, Telling(blocks)))
  {
    if blocks != [] {
      var (init, last) := (blocks[..|blocks| - 1], blocks[|blocks| - 1]);
      assert blocks == init + [last];
      IdleBlocksDoNothing(r, init);
      TellingSnoc(init, last);
      DispatchSnoc(r, init, last);
      DispatchSnoc(r, Telling(init), last);
      StillAgree(DispatchAll(r, init), DispatchAll(r, Telling(init)), last);
    }
  }

  // ----- reading a replay -----

  lemma {:induction false} ResumeAtNamed<J>(blocks: seq<Block<J>>, n: nat, m: nat)
    requires Numbered(blocks) && n <= m <= |blocks|
    ensures ResumeAt(blocks, IdBefore(blocks, n), m) == n
  {
    if 0 < n < m { ResumeAtNamed(blocks, n, m - 1); }
  }

  lemma TrimmedIsSent<J>(blocks: seq<Block<J>>, n: nat)
    requires TrimmedIds(blocks) && n <= |blocks|
    ensures Sent(IdBefore(blocks, n)) == IdBefore(blocks, n)
  {
    if n > 0 && blocks[n - 1].id.Some? { TrimExactly(blocks[n - 1].id.value); }
  }

  /** A reader that has been through `n` entries is resumed behind them exactly when the id
      it recorded last has no white space at its ends. */
  lemma ResumedExactly<J>(blocks: seq<Block<J>>, n: nat)
    requires Numbered(blocks) && n <= |blocks|
    ensures ResumeAt(blocks, Sent(IdBefore(blocks, n)), |blocks|) == n <==> n == 0 || IsTrimmed(blocks[n - 1].id.value)
  {
    if n > 0 {
      TrimExactly(blocks[n - 1].id.value);
      if IsTrimmed(blocks[n - 1].id.value) { ResumeAtNamed(blocks, n, |blocks|); }
    }
  }

  lemma ParsedSlice<J>(hooks: Hooks<J>, log: seq<string>, n: nat, m: nat)
    requires n <= m <= |log|
    ensures ParseAll(hooks, log[n..m]) == ParseAll(hooks, log)[n..m]
  {
  }

  lemma SliceTells<J>(hooks: Hooks<J>, log: seq<string>, n: nat, m: nat)
    requires ValidLog(hooks, log) && n <= m <= |log|
    ensures Telling(ParseAll(hooks, log[n..m])) == ParseAll(hooks, log)[n..m]
  {
    ParsedSlice(hooks, log, n, m);
    AllTelling(ParseAll(hooks, log)[n..m]);
  }

  /** The blocks that an honest connection completes are, but for idle ones, the next entries
      of the log. */
  lemma ServedReplays<J>(hooks: Hooks<J>, log: seq<string>, sent: Option<string>, chunks: seq<string>)
    requires ValidLog(hooks, log) && Served(hooks, log, sent, chunks)
    ensures Replays(ParseAll(hooks, log), sent, ParseAll(hooks, FeedAll(chunks).0))
  {
    var n := ResumeAt(ParseAll(hooks, log), sent, |log|);
    var raw :| IsReplay(log, n, chunks, raw) && SafeCuts(chunks, raw);
    var m := SafeCutsReadEntries(log, n, chunks, raw);
    TellingBodies(hooks, FeedAll(chunks).0);
    SliceTells(hooks, log, n, m);
  }

  // ----- dispatching a replay -----

  /** The reader has gone through the entries up to `m`, or stopped behind a rejected one. */
  predicate Reached<J(==)>(blocks: seq<Block<J>>, r: Reader<J>, k: nat, m: nat) {
    && k <= m <= |blocks| && CaughtUp(blocks, r, k)
    && (if r.failed then k > 0 && blocks[k - 1].payload == Rejected else k == m)
  }

  lemma OneEntry<J>(blocks: seq<Block<J>>, r: Reader<J>, n: nat)
    requires n < |blocks| && blocks[n].payload != Absent && blocks[n].id.Some?
    requires CaughtUp(blocks, r, n) && !r.failed
    ensures var after := Dispatch(r, blocks[n]);
            CaughtUp(blocks, after, n + 1) && (after.failed <==> blocks[n].payload == Rejected)
  {
  }

  lemma ReachOneMore<J>(blocks: seq<Block<J>>, r: Reader<J>, k: nat, m: nat) returns (k': nat)
    requires Numbered(blocks) && m < |blocks| && Reached(blocks, r, k, m)
    ensures k <= k' && Reached(blocks, Dispatch(r, blocks[m]), k', m + 1)
  {
    k' := k;
    if !r.failed {
      OneEntry(blocks, r, m);
      k' := m + 1;
    }
  }

  /** One connection moves the reader forward in the log, never past a gap: it stops
      behind the last complete entry, or behind the first rejected one. */
  lemma {:induction false} Replay<J>(blocks: seq<Block<J>>, r: Reader<J>, n: nat, m: nat) returns (k: nat)
    requires Numbered(blocks) && n <= m <= |blocks|
    requires CaughtUp(blocks, r, n) && !r.failed
    ensures n <= k && Reached(blocks, DispatchAll(r, blocks[n..m]), k, m)
  {
    if n == m {
      k := n;
    } else {
      k := Replay(blocks, r, n, m - 1);
      var before := DispatchAll(r, blocks[n..m - 1]);
      assert blocks[n..m] == blocks[n..m - 1] + [blocks[m - 1]];
      DispatchSnoc(r, blocks[n..m - 1], blocks[m - 1]);
      k := ReachOneMore(blocks, before, k, m - 1);
    }
  }

  // ----- whole runs -----

  /** But for idle ones, the received blocks are the next entries behind the one named. */
  ghost predicate Replays<J>(blocks: seq<Block<J>>, sent: Option<string>, received: seq<Block<J>>) {
    var n := ResumeAt(blocks, sent, |blocks|);
    exists m :: n <= m <= |blocks| && Telling(received) == blocks[n..m]
  }

  ghost predicate AllReplays<J>(config: Config, blocks: seq<Block<J>>, answers: seq<Answer<J>>) {
    forall i :: 0 <= i < |answers| && answers[i].Blocks? ==>
      Replays(blocks, Sent(Run(config, answers[..i]).reader.lastEventId), answers[i].blocks)
  }

  lemma OneConnection<J>(blocks: seq<Block<J>>, r: Reader<J>, received: seq<Block<J>>, n: nat) returns (k: nat)
    requires ValidBlocks(blocks) && CaughtUp(blocks, r, n) && !r.failed
    requires Replays(blocks, Sent(r.lastEventId), received)
    ensures n <= k && CaughtUp(blocks, DispatchAll(r, received), k)
  {
    TrimmedIsSent(blocks, n);
    ResumeAtNamed(blocks, n, |blocks|);
    var m :| n <= m <= |blocks| && Telling(received) == blocks[n..m];
    k := Replay(blocks, r, n, m);
    IdleBlocksDoNothing(r, received);
  }

  lemma OneTurn<J>(config: Config, blocks: seq<Block<J>>, c: Client<J>, a: Answer<J>, n: nat) returns (k: nat)
    requires ValidBlocks(blocks) && CaughtUp(blocks, c.reader, n) && !c.reader.failed
    requires a.Blocks? ==> Replays(blocks, Sent(c.reader.lastEventId), a.blocks)
    ensures n <= k && CaughtUp(blocks, Turn(config, c, a).reader, k)
  {
    k := n;
    if c.status == Running && a.Blocks? && CanSend(c.reader.lastEventId) {
      k := OneConnection(blocks, c.reader, a.blocks, n);
    }
  }

  lemma {:induction false} RunCatchesUp<J>(config: Config, blocks: seq<Block<J>>, answers: seq<Answer<J>>)
    returns (n: nat)
    requires ValidBlocks(blocks) && AllReplays(config, blocks, answers)
    ensures CaughtUp(blocks, Run(config, answers).reader, n) && !Run(config, answers).reader.failed
  {
    if answers == [] {
      return 0;
    }
    var (init, last) := (answers[..|answers| - 1], answers[|answers| - 1]);
    assert forall i :: 0 <= i < |init| ==> init[..i] == answers[..i];
    n := RunCatchesUp(config, blocks, init);
    n := OneTurn(config, blocks, Run(config, init), last, n);
  }

  /** Resume safety: at every point of every run against an honest server the reader
      has been through exactly the first n entries, in order, for some n. */
  lemma ResumeSafety<J>(config: Config, hooks: Hooks<J>, log: seq<string>, script: seq<Attempt>) returns (n: nat)
    requires ValidLog(hooks, log) && Honest(config, hooks, log, script)
    ensures CaughtUp(ParseAll(hooks, log), Run(config, Answers(hooks, script)).reader, n)
  {
    var (blocks, answers) := (ParseAll(hooks, log), Answers(hooks, script));
    forall i | 0 <= i < |answers| && answers[i].Blocks?
      ensures Replays(blocks, Sent(Run(config, answers[..i]).reader.lastEventId), answers[i].blocks)
    {
      assert Answers(hooks, script[..i]) == answers[..i];
      ServedReplays(hooks, log, Sent(Run(config, answers[..i]).reader.lastEventId), script[i].chunks);
    }
    n := RunCatchesUp(config, blocks, answers);
  }

  /** A connection that delivers the whole replay, with nothing rejected, leaves
      nothing of the log unseen. */
  lemma WholeReplayCatchesUp<J>(hooks: Hooks<J>, log: seq<string>, r: Reader<J>, n: nat, chunks: seq<string>)
    requires ValidLog(hooks, log) && CaughtUp(ParseAll(hooks, log), r, n) && !r.failed
    requires IsReplay(log, ResumeAt(ParseAll(hooks, log), Sent(r.lastEventId), |log|), chunks, Flatten(chunks))
    requires SafeCuts(chunks, Flatten(chunks))
    ensures var after := DispatchAll(r, ParseAll(hooks, FeedAll(chunks).0));
            !after.failed ==> CaughtUp(ParseAll(hooks, log), after, |log|)
  {
    var blocks := ParseAll(hooks, log);
    TrimmedIsSent(blocks, n);
    ResumeAtNamed(blocks, n, |log|);
    WholeReplayReadsAll(log, n, chunks);
    TellingBodies(hooks, FeedAll(chunks).0);
    SliceTells(hooks, log, n, |log|);
    var k := Replay(blocks, r, n, |log|);
    IdleBlocksDoNothing(r, ParseAll(hooks, FeedAll(chunks).0));
  }

  /** The entries shown are a gap-free prefix of the log exactly when no callback has
      rejected one of them: a rejected entry is skipped for good. */
  lemma {:induction false} GapFreeExactly<J>(blocks: seq<Block<J>>, n: nat)
    requires n <= |blocks| && Numbered(blocks)
    ensures |Accepted(blocks, n)| <= n
    ensures |Accepted(blocks, n)| == n <==> forall i :: 0 <= i < n ==> blocks[i].payload != Rejected
    ensures |Accepted(blocks, n)| == n ==>
              forall i :: 0 <= i < n ==> blocks[i].payload == Present(Accepted(blocks, n)[i])
  {
    if n > 0 { GapFreeExactly(blocks, n - 1); }
  }
}
