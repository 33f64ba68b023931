/** The reconnecting stream: a loop over connections, each read through a buffer
    of its own, with a sticky last event id and capped exponential backoff. */
module SseClient {
  import opened Wrappers
  import opened Text
  import opened HeaderText
  import opened SseParser

  datatype Config = Config(defaultRetryDelay: Option<real>, maxAttempts: Option<int>, maxDelay: Option<real>) {
    function InitialDelay(): real {
      if defaultRetryDelay.Some? then defaultRetryDelay.value else 3000.0
    }

    function Cap(): real {
      if maxDelay.Some? then maxDelay.value else 30000.0
    }
  }

  datatype Ending = Done | Broken

  /** What the outside world does in one turn of the reconnect loop: the signal is
      found aborted, the request yields no stream, or a stream delivers chunks. */
  datatype Attempt = Aborted | NoStream | Stream(chunks: seq<string>, ending: Ending)

  /** The same, with the blocks that the chunks complete. */
  datatype Answer<+J> = Stop | Failure | Blocks(blocks: seq<Block<J>>, ending: Ending)

  function AnswerOf<J>(hooks: Hooks<J>, a: Attempt): Answer<J> {
    match a
    case Aborted => Stop
    case NoStream => Failure
    case Stream(chunks, ending) => Blocks(ParseAll(hooks, FeedAll(chunks).0), ending)
  }

  function Answers<J>(hooks: Hooks<J>, script: seq<Attempt>): (answers: seq<Answer<J>>)
    ensures |answers| == |script|
    ensures forall i :: 0 <= i < |script| ==> answers[i] == AnswerOf(hooks, script[i])
  {
    seq(|script|, i requires 0 <= i < |script| => AnswerOf(hooks, script[i]))
  }

  datatype Status = Running | Completed | GaveUp | Stopped | Thrown

  datatype Client<+J> = Client(
    reader: Reader<J>,
    attempt: nat,
    requested: seq<Option<string>>,
    sleeps: seq<Number>,
    status: Status)

  /** A double, as far as the backoff needs it: its finite values are not rounded. */
  datatype Number = Finite(value: real) | PlusInfinity | MinusInfinity | NaN

  /** The exact `delay * 2 ** n`. */
  function Doubled(delay: real, n: nat): real {
    if n == 0 then delay else 2.0 * Doubled(delay, n - 1)
  }

  /** The greatest exponent of a finite power of two. */
  const MAX_EXPONENT := 1023

  /** `delay * 2 ** n`: beyond the greatest exponent the power is infinite, and zero times
      infinity is not a number. */
  function Scaled(delay: real, n: nat): Number {
    if n <= MAX_EXPONENT then Finite(Doubled(delay, n))
    else if delay > 0.0 then PlusInfinity
    else if delay < 0.0 then MinusInfinity
    else NaN
  }

  /** `Math.min(x, cap)` */
  function Min(x: Number, cap: real): Number {
    match x
    case Finite(value) => if value <= cap then x else Finite(cap)
    case PlusInfinity => Finite(cap)
    case MinusInfinity => MinusInfinity
    case NaN => NaN
  }

  /** `Math.min(retryDelay * 2 ** (attempt - 1), cap)` */
  function Backoff(retryDelay: real, attempt: nat, cap: real): Number
    requires attempt > 0
  {
    Min(Scaled(retryDelay, attempt - 1), cap)
  }

  /** What `headers.set` sends as Last-Event-ID: the id without white space at its ends. */
  function Sent(lastEventId: Option<string>): Option<string> {
    if lastEventId.Some? then Some(Trim(lastEventId.value)) else None
  }

  /** Setting the header throws, outside of the loop's `try`, for an id that no header can carry. */
  predicate CanSend(lastEventId: Option<string>) {
    lastEventId.Some? ==> IsHeaderValue(lastEventId.value)
  }

  function Start<J>(config: Config): Client<J> {
    Client(Reader(None, config.InitialDelay(), [], [], false), 0, [], [], Running)
  }

  function AfterConnection<J>(r: Reader<J>, a: Answer<J>): Reader<J> {
    if a.Blocks? then DispatchAll(r, a.blocks) else r
  }

  /** One turn of the reconnect loop. */
  function Turn<J>(config: Config, c: Client<J>, a: Answer<J>): Client<J> {
    if c.status != Running then c
    else if a.Stop? then c.(status := Stopped)
    else if !CanSend(c.reader.lastEventId) then c.(attempt := c.attempt + 1, status := Thrown)
    else
      var r := AfterConnection(c.reader, a);
      var tried := c.(reader := r.(failed := false), attempt := c.attempt + 1,
                      requested := c.requested + [Sent(c.reader.lastEventId)]);
      if a.Blocks? && a.ending.Done? && !r.failed then tried.(status := Completed)
      else if config.maxAttempts.Some? && tried.attempt >= config.maxAttempts.value then tried.(status := GaveUp)
      else tried.(sleeps := c.sleeps + [Backoff(r.retryDelay, tried.attempt, config.Cap())])
  }

  function Run<J>(config: Config, answers: seq<Answer<J>>): Client<J> {
    if answers == [] then Start(config)
    else Turn(config, Run(config, answers[..|answers| - 1]), answers[|answers| - 1])
  }

  lemma {:induction false} StoppedStays<J>(config: Config, answers: seq<Answer<J>>, i: nat)
    requires i <= |answers|
    requires Run(config, answers[..i]).status != Running
    ensures Run(config, answers) == Run(config, answers[..i])
  {
    if i < |answers| {
      var init := answers[..|answers| - 1];
      assert init[..i] == answers[..i];
      StoppedStays(config, init, i);
    } else {
      assert answers[..i] == answers;
    }
  }

  lemma {:induction false} FeedAllGrows(chunks: seq<string>, i: nat)
    requires i <= |chunks|
    ensures FeedAll(chunks[..i]).0 <= FeedAll(chunks).0
  {
    if i < |chunks| {
      var init := chunks[..|chunks| - 1];
      assert init[..i] == chunks[..i];
      FeedAllGrows(init, i);
    } else {
      assert chunks[..i] == chunks;
    }
  }

  lemma NextRead<J>(hooks: Hooks<J>, r: Reader<J>, chunks: seq<string>, i: nat)
    requires i < |chunks|
    ensures var (done, buffer) := FeedAll(chunks[..i]);
            var (more, rest) := Read(buffer, chunks[i]);
            && FeedAll(chunks[..i + 1]).1 == rest
            && DispatchAll(r, ParseAll(hooks, FeedAll(chunks[..i + 1]).0)) ==
               DispatchAll(DispatchAll(r, ParseAll(hooks, done)), ParseAll(hooks, more))
  {
    assert chunks[..i + 1][..i] == chunks[..i];
    var (done, buffer) := FeedAll(chunks[..i]);
    var more := Read(buffer, chunks[i]).0;
    assert ParseAll(hooks, done + more) == ParseAll(hooks, done) + ParseAll(hooks, more);
    DispatchAppend(r, ParseAll(hooks, done), ParseAll(hooks, more));
  }

  /** A connection that fails in some read ignores the reads after it. */
  lemma SettledByPrefix<J>(hooks: Hooks<J>, r: Reader<J>, chunks: seq<string>, i: nat)
    requires i <= |chunks|
    requires DispatchAll(r, ParseAll(hooks, FeedAll(chunks[..i]).0)).failed
    ensures DispatchAll(r, ParseAll(hooks, FeedAll(chunks).0)) ==
            DispatchAll(r, ParseAll(hooks, FeedAll(chunks[..i]).0))
  {
    FeedAllGrows(chunks, i);
    var (some, all) := (ParseAll(hooks, FeedAll(chunks[..i]).0), ParseAll(hooks, FeedAll(chunks).0));
    assert all[..|some|] == some;
    FailedOn(r, all, |some|);
  }

  lemma FailedOn<J>(r: Reader<J>, blocks: seq<Block<J>>, k: nat)
    requires k <= |blocks| && DispatchAll(r, blocks[..k]).failed
    ensures DispatchAll(r, blocks) == DispatchAll(r, blocks[..k])
  {
    assert blocks == blocks[..k] + blocks[k..];
    DispatchAppend(r, blocks[..k], blocks[k..]);
    FailureSticks(DispatchAll(r, blocks[..k]), blocks[k..]);
  }

  lemma LastNumberAppend(values: seq<string>, added: seq<string>)
    requires |added| <= 1
    ensures LastNumber(values + added) ==
            if added != [] && ParseInt(added[0]).Some? then ParseInt(added[0]) else LastNumber(values)
  {
    if added == [] {
      assert values + added == values;
    } else {
      assert (values + added)[..|values|] == values;
    }
  }

  lemma NextLine(lines: seq<string>, i: nat, field: string)
    requires i < |lines|
    ensures FieldValues(lines[..i + 1], field) == FieldValues(lines[..i], field) + FieldValue(lines[i], field)
  {
    assert lines[..i + 1][..i] == lines[..i];
  }

  /** A line carries at most one of the four fields. */
  lemma OneField(line: string)
    ensures "data:" <= line ==> !("event:" <= line) && !("id:" <= line) && !("retry:" <= line)
    ensures "event:" <= line ==> !("id:" <= line) && !("retry:" <= line)
    ensures "id:" <= line ==> !("retry:" <= line)
  {
    assert "data:" <= line ==> line[0] == 'd';
    assert "event:" <= line ==> line[0] == 'e';
    assert "id:" <= line ==> line[0] == 'i';
    assert "retry:" <= line ==> line[0] == 'r';
  }

  /** The closure state of `createSseClient` and its generator. */
  class SseStream<!J> {
    const hooks: Hooks<J>
    const config: Config
    var lastEventId: Option<string>
    var retryDelay: real
    var attempt: nat
    var events: seq<StreamEvent<J>>
    var yielded: seq<Data<J>>
    var requested: seq<Option<string>>
    var sleeps: seq<Number>

    constructor (config: Config, hooks: Hooks<J>)
      ensures this.config == config && this.hooks == hooks
      ensures View(Running) == Start(config)
    {
      this.config, this.hooks := config, hooks;
      lastEventId, retryDelay, attempt := None, config.InitialDelay(), 0;
      events, yielded, requested, sleeps := [], [], [], [];
    }

    ghost function ReaderView(failed: bool): Reader<J>
      reads this
    {
      Reader(lastEventId, retryDelay, events, yielded, failed)
    }

    ghost function View(status: Status): Client<J>
      reads this
    {
      Client(ReaderView(false), attempt, requested, sleeps, status)
    }

    /** One line: an if-else chain over the four fields. */
    method ReadField(line: string, dataLines: seq<string>, eventName: Option<string>)
      returns (dataLines': seq<string>, eventName': Option<string>)
      modifies `lastEventId, `retryDelay
      ensures dataLines' == dataLines + FieldValue(line, "data:")
      ensures eventName' == IdAfter(LastOf(FieldValue(line, "event:")), eventName)
      ensures lastEventId == IdAfter(LastOf(FieldValue(line, "id:")), old(lastEventId))
      ensures retryDelay == DelayAfter(LastNumber(FieldValue(line, "retry:")), old(retryDelay))
    {
      OneField(line);
      dataLines', eventName' := dataLines, eventName;
      if "data:" <= line {
        dataLines' := dataLines + [StripLeft(line[5..])];
      } else if "event:" <= line {
        eventName' := Some(StripLeft(line[6..]));
      } else if "id:" <= line {
        lastEventId := Some(StripLeft(line[3..]));
      } else if "retry:" <= line {
        var parsed := ParseInt(StripLeft(line[6..]));
        if parsed.Some? {
          retryDelay := parsed.value as real;
        }
      }
    }

    /** The loop over the lines of a block. */
    method ReadFields(lines: seq<string>) returns (dataLines: seq<string>, eventName: Option<string>)
      modifies `lastEventId, `retryDelay
      ensures dataLines == FieldValues(lines, "data:")
      ensures eventName == LastOf(FieldValues(lines, "event:"))
      ensures lastEventId == IdAfter(LastOf(FieldValues(lines, "id:")), old(lastEventId))
      ensures retryDelay == DelayAfter(LastNumber(FieldValues(lines, "retry:")), old(retryDelay))
    {
      dataLines, eventName := [], None;
      for i := 0 to |lines|
        invariant dataLines == FieldValues(lines[..i], "data:")
        invariant eventName == LastOf(FieldValues(lines[..i], "event:"))
        invariant lastEventId == IdAfter(LastOf(FieldValues(lines[..i], "id:")), old(lastEventId))
        invariant retryDelay == DelayAfter(LastNumber(FieldValues(lines[..i], "retry:")), old(retryDelay))
      {
        NextLine(lines, i, "data:");
        NextLine(lines, i, "event:");
        NextLine(lines, i, "id:");
        NextLine(lines, i, "retry:");
        LastNumberAppend(FieldValues(lines[..i], "retry:"), FieldValue(lines[i], "retry:"));
        dataLines, eventName := ReadField(lines[i], dataLines, eventName);
      }
      assert lines[..|lines|] == lines;
    }

    /** The body of the loop over complete blocks; false when a callback throws. */
    method DispatchBlock(chunk: string) returns (ok: bool)
      modifies `lastEventId, `retryDelay, `events, `yielded
      ensures ReaderView(!ok) == Dispatch(old(ReaderView(false)), ParseBlock(hooks, chunk))
    {
      var dataLines, eventName := ReadFields(Split(chunk, "\n"));
      var data := None;
      if |dataLines| > 0 {
        var rawData := Join(dataLines, "\n");
        var parsed := hooks.parseJson(rawData);
        if parsed.None? {
          data := Some(Raw(rawData));
        } else {
          var shown := hooks.accept(parsed.value);
          if shown.None? {
            return false;
          }
          data := Some(Parsed(shown.value));
        }
      }
      events := events + [StreamEvent(data, eventName, lastEventId, retryDelay)];
      if data.Some? {
        yielded := yielded + [data.value];
      }
      return true;
    }

    /** The loop over the blocks one read completes. */
    method DispatchBlocks(chunks: seq<string>) returns (ok: bool)
      modifies `lastEventId, `retryDelay, `events, `yielded
      ensures ReaderView(!ok) == DispatchAll(old(ReaderView(false)), ParseAll(hooks, chunks))
    {
      ghost var start := ReaderView(false);
      ghost var blocks := ParseAll(hooks, chunks);
      for k := 0 to |chunks|
        invariant ReaderView(false) == DispatchAll(start, blocks[..k])
      {
        var dispatched := DispatchBlock(chunks[k]);
        assert blocks[..k + 1][..k] == blocks[..k];
        if !dispatched {
          FailedOn(start, blocks, k + 1);
          return false;
        }
      }
      assert blocks[..|blocks|] == blocks;
      return true;
    }

    /** One iteration of the read loop, up to the blocks that the read completes. */
    method ReadOnce(buffer: string, value: string) returns (rest: string, ok: bool)
      modifies `lastEventId, `retryDelay, `events, `yielded
      ensures rest == Read(buffer, value).1
      ensures ReaderView(!ok) == DispatchAll(old(ReaderView(false)), ParseAll(hooks, Read(buffer, value).0))
    {
      rest := buffer + value;
      rest := NormalizeEol(rest);
      var chunks := Split(rest, "\n\n");
      rest := chunks[|chunks| - 1];
      chunks := chunks[..|chunks| - 1];
      ok := DispatchBlocks(chunks);
    }

    /** The read loop of one connection; false when it ends in the catch branch. */
    method ReadConnection(chunks: seq<string>, ending: Ending) returns (ok: bool)
      modifies `lastEventId, `retryDelay, `events, `yielded
      ensures var r := DispatchAll(old(ReaderView(false)), ParseAll(hooks, FeedAll(chunks).0));
              ReaderView(r.failed) == r && ok == (ending.Done? && !r.failed)
    {
      ghost var start := ReaderView(false);
      var buffer := "";
      for i := 0 to |chunks|
        invariant buffer == FeedAll(chunks[..i]).1
        invariant ReaderView(false) == DispatchAll(start, ParseAll(hooks, FeedAll(chunks[..i]).0))
      {
        NextRead(hooks, start, chunks, i);
        var dispatched;
        buffer, dispatched := ReadOnce(buffer, chunks[i]);
        if !dispatched {
          SettledByPrefix(hooks, start, chunks, i + 1);
          return false;
        }
      }
      assert chunks[..|chunks|] == chunks;
      return ending.Done?;
    }

    /** The request and, if it yields a stream, its read loop. */
    method Connect(a: Attempt) returns (ok: bool)
      requires !a.Aborted?
      modifies `lastEventId, `retryDelay, `events, `yielded
      ensures var answer := AnswerOf(hooks, a);
              var r := AfterConnection(old(ReaderView(false)), answer);
              && ReaderView(false) == r.(failed := false)
              && ok == (answer.Blocks? && answer.ending.Done? && !r.failed)
    {
      ok := false;
      if a.Stream? {
        ok := ReadConnection(a.chunks, a.ending);
      }
    }

    /** One turn of the reconnect loop; any status but Running leaves the loop. */
    method TakeTurn(a: Attempt) returns (status: Status)
      modifies this
      ensures View(status) == Turn(config, old(View(Running)), AnswerOf(hooks, a))
    {
      if a.Aborted? {
        return Stopped;
      }
      ghost var before, answer := View(Running), AnswerOf(hooks, a);
      attempt := attempt + 1;
      if !CanSend(lastEventId) {
        return Thrown;
      }
      requested := requested + [Sent(lastEventId)];
      var ok := Connect(a);
      assert ReaderView(false) == AfterConnection(before.reader, answer).(failed := false);
      if ok {
        return Completed;
      }
      if config.maxAttempts.Some? && attempt >= config.maxAttempts.value {
        return GaveUp;
      }
      var backoff := Backoff(retryDelay, attempt, config.Cap());
      sleeps := sleeps + [backoff];
      return Running;
    }

    /** The generator, run until it stops or the script of the outside world ends. */
    method CreateStream(script: seq<Attempt>) returns (status: Status)
      requires View(Running) == Start(config)
      modifies this
      ensures View(status) == Run(config, Answers(hooks, script))
    {
      ghost var answers := Answers(hooks, script);
      status := Running;
      for i := 0 to |script|
        invariant status == Running && View(Running) == Run(config, answers[..i])
      {
        assert answers[..i + 1][..i] == answers[..i];
        status := TakeTurn(script[i]);
        if status != Running {
          StoppedStays(config, answers, i + 1);
          return;
        }
      }
      assert answers[..|script|] == answers;
    }
  }
}
