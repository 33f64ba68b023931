/** Why a chunk boundary inside a CR LF of an event matters: it can lose the event for good. */
module SseCut {
  import opened Wrappers
  import opened Text
  import opened HeaderText
  import opened SseParser
  import opened SseWire
  import opened SseClient
  import opened SseRender
  import opened SseResume

  lemma {:induction false} OneLineEndKeeps(chunks: seq<string>)
    requires '\r' !in Flatten(chunks) || '\n' !in Flatten(chunks)
    ensures KeepsCrlf(chunks)
  {
    if chunks != [] {
      var n := |chunks| - 1;
      var text := Flatten(chunks[..n]);
      assert Flatten(chunks) == text + chunks[n];
      OneLineEndKeeps(chunks[..n]);
      if text != "" { assert text[|text| - 1] in text + chunks[n]; }
      if chunks[n] != "" { assert chunks[n][0] in text + chunks[n]; }
    }
  }

  /** A server that writes only LF, or only CR, line ends is safe under any chunking. */
  lemma OneLineEndIsInvariant(chunks: seq<string>)
    requires '\r' !in Flatten(chunks) || '\n' !in Flatten(chunks)
    ensures FeedAll(chunks) == FeedAll([Flatten(chunks)])
  {
    OneLineEndKeeps(chunks);
    ChunkingInvariance(chunks);
  }

  // ----- a lost event -----

  function Whole(id: string, data: string): WireEvent {
    WireEvent(None, Some(id), None, [data])
  }

  function IdOnly(id: string): WireEvent {
    WireEvent(None, Some(id), None, [])
  }

  /** The first line of the event as it is sent with CR LF, cut between CR and LF. */
  function CutChunks(id: string): seq<string> {
    [BlockText(IdOnly(id)) + "\r", "\n"]
  }

  lemma LinesOfWhole(id: string, data: string)
    ensures EventLines(IdOnly(id)) == [Line("id:", id)]
    ensures BlockText(IdOnly(id)) == Line("id:", id)
    ensures EventLines(Whole(id, data)) == [Line("id:", id), Line("data:", data)]
  {
    FieldLinesOne("id:", id);
    FieldLinesOne("data:", data);
  }

  lemma FieldLinesOne(field: string, value: string)
    ensures FieldLines(field, [value]) == [Line(field, value)]
  {
    assert [value][..0] == [];
  }

  lemma NormalizeCut(line: string)
    requires PlainLine(line)
    ensures NormalizeEach([line + "\r", "\n"]) == line + BLANK
  {
    NormalizePlain(line, false);
    NormalizeAppend(line, "\r", false);
    NormalizeLineEnd("\r", EndsInCr(line, false));
    NormalizeLineEnd("\n", false);
    EachOfTwo(line + "\r", "\n");
    assert line + "\n" + "\n" == line + BLANK;
  }

  lemma CutBlocks(id: string)
    requires ValidValue(id)
    ensures FeedAll(CutChunks(id)).0 == [BlockText(IdOnly(id))]
  {
    var line := BlockText(IdOnly(id));
    LinesOfWhole(id, "");
    RenderedEntry(IdOnly(id));
    assert PlainLine(line) by {
      EventLinesPlain(IdOnly(id));
      assert line in EventLines(IdOnly(id));
    }
    NormalizeCut(line);
    FeedAllIsOneCut(CutChunks(id));
    CutOfEntry(line);
  }

  lemma EachOfTwo(a: string, b: string)
    ensures NormalizeEach([a, b]) == NormalizeEol(a) + NormalizeEol(b)
    ensures Flatten([a, b]) == a + b
  {
    assert [a, b][..1] == [a] && [a][..0] == [];
    assert NormalizeEach([a]) == "" + NormalizeEol(a) == NormalizeEol(a);
    assert Flatten([a]) == "" + a == a;
  }

  lemma CutIsPrefix(id: string, data: string)
    ensures Flatten(CutChunks(id)) <= Render([Whole(id, data)], "\r\n")
  {
    var (line, es) := (Line("id:", id), [Whole(id, data)]);
    LinesOfWhole(id, data);
    EachOfTwo(line + "\r", "\n");
    var lines := StreamLines(es, 0);
    assert lines[0] == line;
    assert Terminated(lines, "\r\n") == line + "\r\n" + Terminated(lines[1..], "\r\n");
    assert line + "\r" + "\n" == line + "\r\n";
  }

  lemma OneEntryLog<J>(hooks: Hooks<J>, text: string)
    requires ValidEntry(text)
    requires var b := ParseBlock(hooks, text);
             b.payload != Absent && b.id.Some? && b.id.value != "" && IsTrimmed(b.id.value)
    ensures ValidLog(hooks, [text])
  {
  }

  lemma WholeIsValidLog<J>(hooks: Hooks<J>, id: string, data: string)
    requires ValidValue(id) && id != "" && IsTrimmed(id) && ValidValue(data) && PayloadOf(hooks, [data]).Present?
    ensures ValidLog(hooks, BlockTexts([Whole(id, data)]))
    ensures ParseAll(hooks, BlockTexts([Whole(id, data)]))[0].id == Some(id)
  {
    var text := BlockText(Whole(id, data));
    RenderedEntry(Whole(id, data));
    ParsedEvent(hooks, Whole(id, data));
    assert BlockTexts([Whole(id, data)]) == [text];
    OneEntryLog(hooks, text);
  }

  lemma WholeOnWire(id: string, data: string)
    requires ValidValue(id) && ValidValue(data)
    ensures NormalizeEol(Render([Whole(id, data)], "\r\n")) == Wire(BlockTexts([Whole(id, data)]), 0)
  {
    var es := [Whole(id, data)];
    StreamLinesPlain(es, 0);
    NormalizeTerminated(StreamLines(es, 0), "\r\n", false);
    RenderedIsWire(es);
  }

  lemma ParsedIdOnly<J>(hooks: Hooks<J>, id: string)
    requires ValidValue(id)
    ensures ParseBlock(hooks, BlockText(IdOnly(id))) == Block(Absent, None, Some(id), None)
  {
    ParsedEvent(hooks, IdOnly(id));
  }

  lemma ParsedOne<J>(hooks: Hooks<J>, text: string)
    ensures ParseAll(hooks, [text]) == [ParseBlock(hooks, text)]
  {
  }

  lemma CutAnswer<J>(hooks: Hooks<J>, id: string)
    requires ValidValue(id)
    ensures AnswerOf(hooks, Stream(CutChunks(id), Broken)) == Blocks([Block(Absent, None, Some(id), None)], Broken)
  {
    CutBlocks(id);
    ParsedIdOnly(hooks, id);
    ParsedOne(hooks, BlockText(IdOnly(id)));
  }

  lemma AfterCut<J>(config: Config, hooks: Hooks<J>, id: string)
    requires ValidValue(id)
    ensures var after := Run(config, Answers(hooks, [Stream(CutChunks(id), Broken)])).reader;
            after.lastEventId == Some(id) && after.yielded == []
  {
    var attempt := Stream(CutChunks(id), Broken);
    CutAnswer(hooks, id);
    assert Answers(hooks, [attempt]) == [AnswerOf(hooks, attempt)];
    OneAnswer<J>(config, Block(Absent, None, Some(id), None));
  }

  lemma OneAnswer<J>(config: Config, block: Block<J>)
    requires block.payload.Absent? && block.id.Some?
    ensures var after := Run(config, [Blocks([block], Broken)]).reader;
            after.lastEventId == block.id && after.yielded == []
  {
    var start := Start<J>(config);
    var answers := [Blocks([block], Broken)];
    assert answers[..0] == [];
    assert [block][..0] == [];
    assert DispatchAll(start.reader, [block]) == Dispatch(start.reader, block);
    assert Run(config, answers) == Turn(config, start, answers[0]);
  }

  /** A connection that breaks off right behind a CR LF cut in two within an event, behind its
      id, loses the event for good: the id is taken for a block of its own and recorded, the
      data is never shown, and a server that resumes strictly after the recorded id has
      nothing left to send. */
  lemma CutLosesEvent<J>(config: Config, hooks: Hooks<J>, id: string, data: string)
    requires ValidValue(id) && id != "" && IsTrimmed(id) && ValidValue(data) && PayloadOf(hooks, [data]).Present?
    ensures var log := BlockTexts([Whole(id, data)]);
            var raw := Render([Whole(id, data)], "\r\n");
            var after := Run(config, Answers(hooks, [Stream(CutChunks(id), Broken)])).reader;
            && ValidLog(hooks, log)
            && NormalizeEol(raw) == Wire(log, 0) && Flatten(CutChunks(id)) <= raw
            && after.yielded == [] && after.lastEventId == Some(id)
            && Wire(log, ResumeAt(ParseAll(hooks, log), Sent(after.lastEventId), |log|)) == ""
  {
    TrimExactly(id);
    WholeIsValidLog(hooks, id, data);
    WholeOnWire(id, data);
    CutIsPrefix(id, data);
    AfterCut(config, hooks, id);
  }
}
