/** From a rendering to the events a reader is shown: names, data, and the sticky id and delay. */
module SseEvents {
  import opened Wrappers
  import opened Text
  import opened SseParser
  import opened SseRender

  /** The last id among the first `n` events, else the one before. */
  function IdInForce(before: Option<string>, es: seq<WireEvent>, n: nat): Option<string>
    requires n <= |es|
  {
    if n == 0 then before else if es[n - 1].id.Some? then es[n - 1].id else IdInForce(before, es, n - 1)
  }

  /** The delay likewise. */
  function DelayInForce(before: real, es: seq<WireEvent>, n: nat): real
    requires n <= |es|
  {
    if n == 0 then before
    else if es[n - 1].retry.Some? then es[n - 1].retry.value as real
    else DelayInForce(before, es, n - 1)
  }

  lemma {:induction false} InForcePrefix(id: Option<string>, delay: real, es: seq<WireEvent>, m: nat, n: nat)
    requires n <= m <= |es|
    ensures IdInForce(id, es[..m], n) == IdInForce(id, es, n)
    ensures DelayInForce(delay, es[..m], n) == DelayInForce(delay, es, n)
  {
    if n > 0 { InForcePrefix(id, delay, es, m, n - 1); }
  }

  /** The block says what the event does, and no callback rejects it. */
  predicate Says<J(==)>(b: Block<J>, e: WireEvent) {
    b.payload != Rejected && b.event == e.event && b.id == e.id && b.retry == e.retry
  }

  /** A reader was shown the block under the id and the delay in force. */
  predicate Shown<J(==)>(seen: StreamEvent<J>, b: Block<J>, id: Option<string>, delay: real) {
    && seen.event == b.event && seen.id == id && seen.retry == delay
    && seen.data == if b.payload.Present? then Some(b.payload.data) else None
  }

  predicate ShownAt<J(==)>(r: Reader<J>, seen: StreamEvent<J>, b: Block<J>, es: seq<WireEvent>, i: nat)
    requires i < |es|
  {
    Shown(seen, b, IdInForce(r.lastEventId, es, i + 1), DelayInForce(r.retryDelay, es, i + 1))
  }

  /** After the blocks the reader has seen one more event for each. */
  predicate HasSeen<J(==)>(r: Reader<J>, after: Reader<J>, blocks: seq<Block<J>>, es: seq<WireEvent>)
    requires |blocks| == |es|
  {
    && !after.failed && |after.events| == |r.events| + |blocks| && r.events <= after.events
    && after.lastEventId == IdInForce(r.lastEventId, es, |es|)
    && after.retryDelay == DelayInForce(r.retryDelay, es, |es|)
    && forall i :: 0 <= i < |blocks| ==> ShownAt(r, after.events[|r.events| + i], blocks[i], es, i)
  }

  lemma SeesOneMore<J>(r: Reader<J>, before: Reader<J>, blocks: seq<Block<J>>, es: seq<WireEvent>)
    requires blocks != [] && |blocks| == |es| && Says(blocks[|blocks| - 1], es[|es| - 1])
    requires HasSeen(r, before, blocks[..|blocks| - 1], es[..|es| - 1])
    ensures HasSeen(r, Dispatch(before, blocks[|blocks| - 1]), blocks, es)
  {
    var n := |blocks| - 1;
    forall i | 0 <= i <= n
      ensures IdInForce(r.lastEventId, es[..n], i) == IdInForce(r.lastEventId, es, i)
      ensures DelayInForce(r.retryDelay, es[..n], i) == DelayInForce(r.retryDelay, es, i)
    {
      InForcePrefix(r.lastEventId, r.retryDelay, es, n, i);
    }
    var after := Dispatch(before, blocks[n]);
    forall i | 0 <= i < |blocks| ensures ShownAt(r, after.events[|r.events| + i], blocks[i], es, i) {
      if i < n { assert ShownAt(r, before.events[|r.events| + i], blocks[..n][i], es[..n], i); }
    }
  }

  lemma {:induction false} EventsOfBlocks<J>(r: Reader<J>, blocks: seq<Block<J>>, es: seq<WireEvent>)
    requires !r.failed && |blocks| == |es| && forall i :: 0 <= i < |es| ==> Says(blocks[i], es[i])
    ensures HasSeen(r, DispatchAll(r, blocks), blocks, es)
  {
    if blocks != [] {
      var n := |blocks| - 1;
      EventsOfBlocks(r, blocks[..n], es[..n]);
      SeesOneMore(r, DispatchAll(r, blocks[..n]), blocks, es);
    }
  }

  /** The data lines stand for one text, whose lines they are: shown raw where it is no JSON, as
      the callbacks return it where it is, and rejected where one of them throws. */
  lemma PayloadExactly<J>(hooks: Hooks<J>, lines: seq<string>) returns (raw: string)
    requires lines != [] && forall line :: line in lines ==> '\n' !in line
    ensures Split(raw, "\n") == lines
    ensures var (payload, json) := (PayloadOf(hooks, lines), hooks.parseJson(raw));
            && (payload == Present(Raw(raw)) <==> json.None?)
            && (payload.Rejected? <==> json.Some? && hooks.accept(json.value).None?)
            && (json.Some? && hooks.accept(json.value).Some? ==>
                  payload == Present(Parsed(hooks.accept(json.value).value)))
  {
    raw := Join(lines, "\n");
    SplitUndoesJoin(lines, '\n');
  }

  lemma NoPayload<J>(hooks: Hooks<J>, lines: seq<string>)
    ensures PayloadOf(hooks, lines).Absent? <==> lines == []
  {
  }

  /** What a callback makes of an event's data. */
  function BlockOf<J>(hooks: Hooks<J>, e: WireEvent): Block<J> {
    Block(PayloadOf(hooks, e.data), e.event, e.id, e.retry)
  }

  function BlocksOf<J>(hooks: Hooks<J>, es: seq<WireEvent>): (blocks: seq<Block<J>>)
    ensures |blocks| == |es| && forall i :: 0 <= i < |es| ==> blocks[i] == BlockOf(hooks, es[i])
  {
    seq(|es|, i requires 0 <= i < |es| => BlockOf(hooks, es[i]))
  }

  /** A reader given a rendering, in any line end and any admissible chunking, is shown one
      event for each, with its name, its data and the id and the delay then in force, and
      keeps the last of both; provided no callback rejects one. */
  lemma EventsRoundTrip<J>(hooks: Hooks<J>, r: Reader<J>, es: seq<WireEvent>, eol: string, chunks: seq<string>)
    requires eol in ["\n", "\r", "\r\n"] && !r.failed
    requires forall i :: 0 <= i < |es| ==> ValidEvent(es[i]) && BlockOf(hooks, es[i]).payload != Rejected
    requires KeepsCrlf(chunks) && Flatten(chunks) == Render(es, eol)
    ensures HasSeen(r, DispatchAll(r, ParseAll(hooks, FeedAll(chunks).0)), BlocksOf(hooks, es), es)
  {
    RoundTrip(hooks, es, eol, chunks);
    assert ParseAll(hooks, FeedAll(chunks).0) == BlocksOf(hooks, es);
    EventsOfBlocks(r, BlocksOf(hooks, es), es);
  }
}
