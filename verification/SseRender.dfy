/** Writing events as section 9.2.6 of the WHATWG HTML standard reads them, and
    reading them back. */
module SseRender {
  import opened Wrappers
  import opened Text
  import opened Induction
  import opened SseDelay
  import opened SseParser
  import opened SseWire

  datatype WireEvent = WireEvent(event: Option<string>, id: Option<string>, retry: Option<int>, data: seq<string>)

  predicate ValidValue(v: string) {
    '\r' !in v && '\n' !in v && (v != "" ==> !IsJsSpace(v[0]))
  }

  /** Every field value survives on one line, and there is at least one field. */
  predicate ValidEvent(e: WireEvent) {
    && (e.event.Some? ==> ValidValue(e.event.value))
    && (e.id.Some? ==> ValidValue(e.id.value))
    && (forall d :: d in e.data ==> ValidValue(d))
    && (e.event.Some? || e.id.Some? || e.retry.Some? || e.data != [])
  }

  function Line(field: string, value: string): string {
    field + " " + value
  }

  function FieldLines(field: string, values: seq<string>): seq<string> {
    if values == [] then []
    else FieldLines(field, values[..|values| - 1]) + [Line(field, values[|values| - 1])]
  }

  function Values(value: Option<string>): seq<string> {
    if value.Some? then [value.value] else []
  }

  function OptionalLine(field: string, value: Option<string>): seq<string> {
    FieldLines(field, Values(value))
  }

  function RetryText(e: WireEvent): Option<string> {
    if e.retry.Some? then Some(IntText(e.retry.value)) else None
  }

  function EventLines(e: WireEvent): seq<string> {
    OptionalLine("event:", e.event) + OptionalLine("id:", e.id) + OptionalLine("retry:", RetryText(e)) +
    FieldLines("data:", e.data)
  }

  function Terminated(lines: seq<string>, eol: string): string {
    if lines == [] then "" else lines[0] + eol + Terminated(lines[1..], eol)
  }

  /** The lines of all events, each event closed by an empty line. */
  function StreamLines(es: seq<WireEvent>, k: nat): seq<string>
    requires k <= |es|
    decreases |es| - k
  {
    if k == |es| then [] else EventLines(es[k]) + [""] + StreamLines(es, k + 1)
  }

  function Render(es: seq<WireEvent>, eol: string): string {
    Terminated(StreamLines(es, 0), eol)
  }

  function BlockText(e: WireEvent): string {
    Join(EventLines(e), "\n")
  }

  function BlockTexts(es: seq<WireEvent>): (texts: seq<string>)
    ensures |texts| == |es| && forall i :: 0 <= i < |es| ==> texts[i] == BlockText(es[i])
  {
    seq(|es|, i requires 0 <= i < |es| => BlockText(es[i]))
  }

  // ----- the fields of a rendered event -----

  /** The names are equal or already differ in their first letter. */
  predicate Distinguishes(a: string, b: string) {
    a != "" && b != "" && (a == b || a[0] != b[0])
  }

  lemma PrefixHead(p: string, s: string)
    requires p != ""
    ensures p <= s ==> s != "" && p[0] == s[0]
  {
  }

  lemma FieldOfLine(field: string, value: string, other: string)
    requires Distinguishes(field, other)
    requires ValidValue(value)
    ensures FieldValue(Line(field, value), other) == if field == other then [value] else []
  {
    var line := Line(field, value);
    assert line[0] == field[0];
    if field == other {
      assert line[|field|..] == " " + value;
      assert (" " + value)[1..] == value;
      assert StripLeft(" " + value) == StripLeft(value) == value;
    }
    PrefixHead(other, line);
  }

  lemma FieldValuesSnoc(lines: seq<string>, line: string, field: string)
    ensures FieldValues(lines + [line], field) == FieldValues(lines, field) + FieldValue(line, field)
  {
    assert (lines + [line])[..|lines|] == lines;
  }

  lemma {:induction false} OwnLines(field: string, values: seq<string>)
    requires field != "" && forall i :: 0 <= i < |values| ==> ValidValue(values[i])
    ensures FieldValues(FieldLines(field, values), field) == values
  {
    if values != [] {
      var n := |values| - 1;
      OwnLines(field, values[..n]);
      FieldOfLine(field, values[n], field);
      FieldValuesSnoc(FieldLines(field, values[..n]), Line(field, values[n]), field);
      assert values == values[..n] + [values[n]];
    }
  }

  lemma {:induction false} OtherLines(field: string, values: seq<string>, other: string)
    requires Distinguishes(field, other) && field != other
    requires forall i :: 0 <= i < |values| ==> ValidValue(values[i])
    ensures FieldValues(FieldLines(field, values), other) == []
  {
    if values != [] {
      var n := |values| - 1;
      OtherLines(field, values[..n], other);
      FieldOfLine(field, values[n], other);
      FieldValuesSnoc(FieldLines(field, values[..n]), Line(field, values[n]), other);
    }
  }

  lemma FieldsOfLines(field: string, values: seq<string>, other: string)
    requires Distinguishes(field, other)
    requires forall i :: 0 <= i < |values| ==> ValidValue(values[i])
    ensures FieldValues(FieldLines(field, values), other) == ValuesIf(field == other, values)
  {
    if field == other {
      OwnLines(field, values);
    } else {
      OtherLines(field, values, other);
    }
  }

  lemma SplitLast<T>(a: seq<T>, b: seq<T>)
    requires b != []
    ensures var n := |b| - 1; a + b == (a + b[..n]) + [b[n]] && b == b[..n] + [b[n]]
  {
  }

  lemma {:induction false} FieldValuesAppend(a: seq<string>, b: seq<string>, field: string)
    ensures FieldValues(a + b, field) == FieldValues(a, field) + FieldValues(b, field)
  {
    if b == [] {
      assert a + b == a;
    } else {
      var n := |b| - 1;
      FieldValuesAppend(a, b[..n], field);
      SplitLast(a, b);
      FieldValuesSnoc(a + b[..n], b[n], field);
      FieldValuesSnoc(b[..n], b[n], field);
      Assoc(FieldValues(a, field), FieldValues(b[..n], field), FieldValue(b[n], field));
    }
  }

  function ValuesIf(here: bool, values: seq<string>): seq<string> {
    if here then values else []
  }

  lemma FieldsOfParts(a: seq<string>, b: seq<string>, c: seq<string>, d: seq<string>, field: string)
    ensures FieldValues(a + b + c + d, field) ==
            FieldValues(a, field) + FieldValues(b, field) + FieldValues(c, field) + FieldValues(d, field)
  {
    FieldValuesAppend(a + b + c, d, field);
    FieldValuesAppend(a + b, c, field);
    FieldValuesAppend(a, b, field);
  }

  lemma RetryIsValid(e: WireEvent)
    ensures forall i :: 0 <= i < |Values(RetryText(e))| ==> ValidValue(Values(RetryText(e))[i])
  {
    if e.retry.Some? { IntTextIsPlain(e.retry.value); }
  }

  lemma FieldsOfEvent(e: WireEvent, field: string)
    requires ValidEvent(e)
    requires Distinguishes("event:", field) && Distinguishes("id:", field)
    requires Distinguishes("retry:", field) && Distinguishes("data:", field)
    ensures FieldValues(EventLines(e), field) ==
            ValuesIf("event:" == field, Values(e.event)) + ValuesIf("id:" == field, Values(e.id)) +
            ValuesIf("retry:" == field, Values(RetryText(e))) + ValuesIf("data:" == field, e.data)
  {
    FieldsOfLines("event:", Values(e.event), field);
    FieldsOfLines("id:", Values(e.id), field);
    RetryIsValid(e);
    FieldsOfLines("retry:", Values(RetryText(e)), field);
    FieldsOfLines("data:", e.data, field);
    FieldsOfParts(OptionalLine("event:", e.event), OptionalLine("id:", e.id), OptionalLine("retry:", RetryText(e)),
                  FieldLines("data:", e.data), field);
  }

  // ----- the lines of a rendered event -----

  predicate PlainLine(line: string) {
    '\r' !in line && '\n' !in line
  }

  lemma {:induction false} FieldLinesPlain(field: string, values: seq<string>)
    requires field != "" && PlainLine(field) && forall v :: v in values ==> PlainLine(v)
    ensures forall l :: l in FieldLines(field, values) ==> PlainLine(l) && l != ""
  {
    if values != [] {
      FieldLinesPlain(field, values[..|values| - 1]);
      assert values[|values| - 1] in values;
    }
  }

  lemma EventLinesPlain(e: WireEvent)
    requires ValidEvent(e)
    ensures EventLines(e) != []
    ensures forall l :: l in EventLines(e) ==> PlainLine(l) && l != ""
  {
    FieldLinesPlain("event:", Values(e.event));
    FieldLinesPlain("id:", Values(e.id));
    RetryIsValid(e);
    FieldLinesPlain("retry:", Values(RetryText(e)));
    FieldLinesPlain("data:", e.data);
  }

  /** Joined non-empty lines never show an empty line. */
  predicate NoBlank(s: string) {
    && s != "" && s[0] != '\n' && s[|s| - 1] != '\n'
    && forall k :: 0 <= k < |s| - 1 ==> s[k] != '\n' || s[k + 1] != '\n'
  }

  lemma {:induction false} JoinedHasNoBlank(lines: seq<string>)
    requires lines != [] && forall l :: l in lines ==> PlainLine(l) && l != ""
    ensures NoBlank(Join(lines, "\n"))
  {
    assert lines[0] in lines;
    assert forall k :: 0 <= k < |lines[0]| ==> lines[0][k] in lines[0];
    if |lines| > 1 {
      JoinedHasNoBlank(lines[1..]);
      var (l, rest) := (lines[0], Join(lines[1..], "\n"));
      var s := Join(lines, "\n");
      assert s == l + "\n" + rest;
      forall k | 0 <= k < |s| - 1 ensures s[k] != '\n' || s[k + 1] != '\n' {
        if k > |l| { assert s[k] == rest[k - |l| - 1] && s[k + 1] == rest[k - |l|]; }
      }
    }
  }

  lemma NoBlankIsEntry(s: string)
    requires NoBlank(s)
    ensures ValidEntry(s)
  {
    var t := s + BLANK;
    assert OccursAt(t, BLANK, |s|);
    IndexOfIsFirst(t, BLANK, |s|);
    var i := IndexOf(t, BLANK);
    assert t[i + 0] == BLANK[0] && t[i + 1] == BLANK[1];
    assert forall k :: 0 <= k < |s| ==> t[k] == s[k];
  }

  lemma DataOfEvent(e: WireEvent)
    requires ValidEvent(e)
    ensures FieldValues(EventLines(e), "data:") == e.data
  {
    FieldsOfEvent(e, "data:");
  }

  lemma NameOfEvent(e: WireEvent)
    requires ValidEvent(e)
    ensures FieldValues(EventLines(e), "event:") == Values(e.event)
  {
    FieldsOfEvent(e, "event:");
  }

  lemma IdOfEvent(e: WireEvent)
    requires ValidEvent(e)
    ensures FieldValues(EventLines(e), "id:") == Values(e.id)
  {
    FieldsOfEvent(e, "id:");
  }

  lemma DelayOfEvent(e: WireEvent)
    requires ValidEvent(e)
    ensures FieldValues(EventLines(e), "retry:") == Values(RetryText(e))
    ensures LastNumber(Values(RetryText(e))) == e.retry
  {
    FieldsOfEvent(e, "retry:");
    if e.retry.Some? { ParseIntText(e.retry.value); }
  }

  lemma LinesOfBlock(e: WireEvent)
    requires ValidEvent(e)
    ensures Split(BlockText(e), "\n") == EventLines(e)
  {
    EventLinesPlain(e);
    SplitUndoesJoin(EventLines(e), '\n');
  }

  lemma ParsedEvent<J>(hooks: Hooks<J>, e: WireEvent)
    requires ValidEvent(e)
    ensures ParseBlock(hooks, BlockText(e)) == Block(PayloadOf(hooks, e.data), e.event, e.id, e.retry)
  {
    LinesOfBlock(e);
    DataOfEvent(e);
    NameOfEvent(e);
    IdOfEvent(e);
    DelayOfEvent(e);
    BlockOfFields(hooks, EventLines(e), e);
  }

  lemma BlockOfFields<J>(hooks: Hooks<J>, lines: seq<string>, e: WireEvent)
    requires Split(BlockText(e), "\n") == lines
    requires FieldValues(lines, "data:") == e.data
    requires FieldValues(lines, "event:") == Values(e.event)
    requires FieldValues(lines, "id:") == Values(e.id)
    requires LastNumber(FieldValues(lines, "retry:")) == e.retry
    ensures ParseBlock(hooks, BlockText(e)) == Block(PayloadOf(hooks, e.data), e.event, e.id, e.retry)
  {
  }

  lemma RenderedEntry(e: WireEvent)
    requires ValidEvent(e)
    ensures ValidEntry(BlockText(e))
  {
    EventLinesPlain(e);
    JoinedHasNoBlank(EventLines(e));
    NoBlankIsEntry(BlockText(e));
  }

  // ----- line ends -----

  lemma {:induction false} NormalizePlain(line: string, afterCr: bool)
    requires PlainLine(line)
    ensures Normalize(line, afterCr) == line
    ensures line != "" ==> !EndsInCr(line, afterCr)
  {
    if line != "" {
      assert line[0] in line && line[|line| - 1] in line;
      NormalizePlain(line[1..], line[0] == '\r');
    }
  }

  lemma NormalizeLineEnd(eol: string, afterCr: bool)
    requires eol in ["\n", "\r", "\r\n"] && (afterCr ==> eol == "\r")
    ensures Normalize(eol, afterCr) == "\n" && EndsInCr(eol, afterCr) == (eol == "\r")
  {
    assert "\r\n"[1..] == "\n" && "\n"[1..] == "" && "\r"[1..] == "";
    assert Normalize("\n", true) == Normalize("", false);
    if eol == "\r\n" { assert Normalize(eol, afterCr) == "\n" + Normalize("\n", true); }
  }

  /** Any of the three line ends is read as a line feed. */
  lemma {:induction false} NormalizeTerminated(lines: seq<string>, eol: string, afterCr: bool)
    requires eol in ["\n", "\r", "\r\n"] && (afterCr ==> eol == "\r")
    requires forall l :: l in lines ==> PlainLine(l)
    ensures Normalize(Terminated(lines, eol), afterCr) == Terminated(lines, "\n")
  {
    if lines != [] {
      var (l, rest) := (lines[0], Terminated(lines[1..], eol));
      var mid := EndsInCr(l, afterCr);
      NormalizePlain(l, afterCr);
      NormalizeLineEnd(eol, mid);
      NormalizeTerminated(lines[1..], eol, eol == "\r");
      NormalizeAppend(l + eol, rest, afterCr);
      NormalizeAppend(l, eol, afterCr);
      EndOfLine(l, eol, afterCr);
    }
  }

  lemma EndOfLine(l: string, eol: string, afterCr: bool)
    requires eol != ""
    ensures EndsInCr(l + eol, afterCr) == EndsInCr(eol, EndsInCr(l, afterCr))
  {
  }

  lemma {:induction false} TerminatedAppend(a: seq<string>, b: seq<string>, eol: string)
    ensures Terminated(a + b, eol) == Terminated(a, eol) + Terminated(b, eol)
  {
    if a == [] {
      assert a + b == b;
    } else {
      TerminatedAppend(a[1..], b, eol);
      assert (a + b)[1..] == a[1..] + b;
      Assoc(a[0] + eol, Terminated(a[1..], eol), Terminated(b, eol));
    }
  }

  lemma {:induction false} TerminatedIsJoined(lines: seq<string>)
    requires lines != []
    ensures Terminated(lines, "\n") == Join(lines, "\n") + "\n"
  {
    if |lines| == 1 {
      assert Terminated(lines[1..], "\n") == "";
    } else {
      TerminatedIsJoined(lines[1..]);
      Assoc(lines[0] + "\n", Join(lines[1..], "\n"), "\n");
    }
  }

  lemma {:induction false} StreamLinesPlain(es: seq<WireEvent>, k: nat)
    requires k <= |es| && forall i :: 0 <= i < |es| ==> ValidEvent(es[i])
    ensures forall l :: l in StreamLines(es, k) ==> PlainLine(l)
    decreases |es| - k
  {
    if k < |es| {
      EventLinesPlain(es[k]);
      StreamLinesPlain(es, k + 1);
    }
  }

  lemma OneMoreEvent(e: WireEvent, rest: seq<string>, wire: string)
    requires ValidEvent(e) && Terminated(rest, "\n") == wire
    ensures Terminated(EventLines(e) + [""] + rest, "\n") == BlockText(e) + BLANK + wire
  {
    EventLinesPlain(e);
    OneBlock(EventLines(e), rest);
  }

  lemma WireNext(es: seq<WireEvent>, k: nat)
    requires k < |es|
    ensures Wire(BlockTexts(es), k) == BlockText(es[k]) + BLANK + Wire(BlockTexts(es), k + 1)
    ensures StreamLines(es, k) == EventLines(es[k]) + [""] + StreamLines(es, k + 1)
  {
  }

  /** From event `k` on the rendered lines are the wire text. */
  ghost predicate IsWireFrom(es: seq<WireEvent>, k: nat) {
    k <= |es| && Terminated(StreamLines(es, k), "\n") == Wire(BlockTexts(es), k)
  }

  lemma IsWireBefore(es: seq<WireEvent>, k: nat)
    requires k < |es| && ValidEvent(es[k]) && IsWireFrom(es, k + 1)
    ensures IsWireFrom(es, k)
  {
    WireNext(es, k);
    OneMoreEvent(es[k], StreamLines(es, k + 1), Wire(BlockTexts(es), k + 1));
  }

  lemma RenderedIsWire(es: seq<WireEvent>)
    requires forall i :: 0 <= i < |es| ==> ValidEvent(es[i])
    ensures Terminated(StreamLines(es, 0), "\n") == Wire(BlockTexts(es), 0)
  {
    forall k: nat | k < |es| && IsWireFrom(es, k + 1) ensures IsWireFrom(es, k) {
      IsWireBefore(es, k);
    }
    assert IsWireFrom(es, |es|);
    Descend((k: nat) => IsWireFrom(es, k), |es|, 0);
    assert IsWireFrom(es, 0);
  }

  lemma OneBlock(lines: seq<string>, rest: seq<string>)
    requires lines != []
    ensures Terminated(lines + [""] + rest, "\n") == Join(lines, "\n") + BLANK + Terminated(rest, "\n")
  {
    TerminatedAppend(lines + [""], rest, "\n");
    TerminatedAppend(lines, [""], "\n");
    TerminatedIsJoined(lines);
    assert [""][1..] == [];
    assert Terminated([""], "\n") == "\n";
  }

  // ----- round trip -----

  /** Rendering with any line end and chunking without cutting a CR LF pair, then
      reading, gives back the fields of every event and leaves nothing over. */
  lemma RoundTrip<J>(hooks: Hooks<J>, es: seq<WireEvent>, eol: string, chunks: seq<string>)
    requires eol in ["\n", "\r", "\r\n"]
    requires forall i :: 0 <= i < |es| ==> ValidEvent(es[i])
    requires KeepsCrlf(chunks) && Flatten(chunks) == Render(es, eol)
    ensures FeedAll(chunks).1 == "" && |FeedAll(chunks).0| == |es|
    ensures forall i :: 0 <= i < |es| ==>
              ParseAll(hooks, FeedAll(chunks).0)[i] ==
              Block(PayloadOf(hooks, es[i].data), es[i].event, es[i].id, es[i].retry)
  {
    var texts := BlockTexts(es);
    StreamLinesPlain(es, 0);
    NormalizeTerminated(StreamLines(es, 0), eol, false);
    RenderedIsWire(es);
    forall i | 0 <= i < |es|
      ensures ValidEntry(texts[i])
      ensures ParseBlock(hooks, texts[i]) == Block(PayloadOf(hooks, es[i].data), es[i].event, es[i].id, es[i].retry)
    {
      ParsedEvent(hooks, es[i]);
      RenderedEntry(es[i]);
    }
    WholeReplay(texts, 0, chunks);
    assert texts[0..|texts|] == texts;
  }
}
