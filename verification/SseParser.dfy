/** Incremental parsing of a server-sent-events stream: line-end normalisation,
    splitting of a growing buffer into blocks, and the fields of one block. */
module SseParser {
  import opened Wrappers
  import opened Text

  const BLANK := "\n\n"

  // ----- line ends -----

  /** `text.replace(/\r\n?/g, "\n")` */
  function NormalizeEol(s: string): string {
    Normalize(s, false)
  }

  /** A CR becomes a LF, and a LF right behind a CR vanishes. */
  function Normalize(s: string, afterCr: bool): string {
    if s == "" then ""
    else
      (if s[0] == '\r' then "\n" else if s[0] == '\n' && afterCr then "" else [s[0]]) +
      Normalize(s[1..], s[0] == '\r')
  }

  lemma {:induction false} NormalizeRemovesCr(s: string, afterCr: bool)
    ensures '\r' !in Normalize(s, afterCr)
  {
    if s != "" { NormalizeRemovesCr(s[1..], s[0] == '\r'); }
  }

  lemma {:induction false} NormalizeIdentity(s: string)
    requires '\r' !in s
    ensures NormalizeEol(s) == s
  {
    if s != "" {
      assert s[0] in s;
      NormalizeIdentity(s[1..]);
    }
  }

  predicate EndsInCr(s: string, before: bool) {
    if s == "" then before else s[|s| - 1] == '\r'
  }

  lemma {:induction false} NormalizeAppend(a: string, b: string, afterCr: bool)
    ensures Normalize(a + b, afterCr) == Normalize(a, afterCr) + Normalize(b, EndsInCr(a, afterCr))
  {
    if a == "" {
      assert a + b == b;
    } else {
      assert (a + b)[1..] == a[1..] + b;
      NormalizeAppend(a[1..], b, a[0] == '\r');
      var head := if a[0] == '\r' then "\n" else if a[0] == '\n' && afterCr then "" else [a[0]];
      Assoc(head, Normalize(a[1..], a[0] == '\r'), Normalize(b, EndsInCr(a, afterCr)));
    }
  }

  /** The boundary between `a` and `b` falls inside a CR LF pair. */
  predicate CutsCrlf(a: string, b: string) {
    EndsInCr(a, false) && b != "" && b[0] == '\n'
  }

  /** Normalising piecewise agrees with normalising at once, except that a CR LF
      pair cut in two yields one line end too many. */
  lemma NormalizePieces(a: string, b: string)
    ensures !CutsCrlf(a, b) ==> NormalizeEol(a + b) == NormalizeEol(a) + NormalizeEol(b)
    ensures CutsCrlf(a, b) ==> |NormalizeEol(a + b)| == |NormalizeEol(a)| + |NormalizeEol(b)| - 1
  {
    NormalizeAppend(a, b, false);
  }

  // ----- feeding a growing buffer -----

  /** One `reader.read()`: append, normalise, split, keep the last piece. */
  function Read(buffer: string, value: string): (seq<string>, string) {
    Cut(NormalizeEol(buffer + value))
  }

  /** The complete blocks of a text, and what follows the last of them. */
  function Cut(text: string): (seq<string>, string) {
    var parts := Split(text, BLANK);
    (parts[..|parts| - 1], parts[|parts| - 1])
  }

  /** All reads of one connection, from an empty buffer. */
  function FeedAll(chunks: seq<string>): (seq<string>, string) {
    if chunks == [] then ([], "")
    else
      var (done, buffer) := FeedAll(chunks[..|chunks| - 1]);
      var (more, rest) := Read(buffer, chunks[|chunks| - 1]);
      (done + more, rest)
  }

  function NormalizeEach(chunks: seq<string>): string {
    if chunks == [] then ""
    else NormalizeEach(chunks[..|chunks| - 1]) + NormalizeEol(chunks[|chunks| - 1])
  }

  /** No chunk boundary falls between a CR and the LF that follows it. */
  predicate KeepsCrlf(chunks: seq<string>) {
    chunks == [] ||
    (var n := |chunks| - 1;
     KeepsCrlf(chunks[..n]) && !CutsCrlf(Flatten(chunks[..n]), chunks[n]))
  }

  lemma CutAppend(a: string, b: string)
    ensures var (done, buffer) := Cut(a);
            var (more, rest) := Cut(buffer + b);
            Cut(a + b) == (done + more, rest)
  {
    SplitAppend(a, b, BLANK);
    var (done, buffer) := Cut(a);
    var p := Split(buffer + b, BLANK);
    assert (done + p)[..|done + p| - 1] == done + p[..|p| - 1];
  }

  lemma {:induction false} NormalizeEachRemovesCr(chunks: seq<string>)
    ensures '\r' !in NormalizeEach(chunks)
  {
    if chunks != [] {
      NormalizeEachRemovesCr(chunks[..|chunks| - 1]);
      NormalizeRemovesCr(chunks[|chunks| - 1], false);
    }
  }

  lemma ReadWithoutCr(buffer: string, value: string)
    requires '\r' !in buffer
    ensures Read(buffer, value) == Cut(buffer + NormalizeEol(value))
  {
    if buffer != "" { assert buffer[|buffer| - 1] in buffer; }
    NormalizePieces(buffer, value);
    NormalizeIdentity(buffer);
  }

  /** The buffer never holds a CR or a blank line, so reading is splitting of
      the text normalised chunk by chunk. */
  lemma {:induction false} FeedAllIsOneCut(chunks: seq<string>)
    ensures FeedAll(chunks) == Cut(NormalizeEach(chunks))
  {
    if chunks == [] {
      assert Split("", BLANK) == [""] && [""][..0] == [];
    } else {
      var n := |chunks| - 1;
      FeedAllIsOneCut(chunks[..n]);
      var text := NormalizeEach(chunks[..n]);
      NormalizeEachRemovesCr(chunks[..n]);
      LastPieceIsSuffix(text, BLANK);
      ReadWithoutCr(Cut(text).1, chunks[n]);
      CutAppend(text, NormalizeEol(chunks[n]));
      var (done, buffer) := Cut(text);
      assert FeedAll(chunks[..n]) == (done, buffer);
      var (more, rest) := Read(buffer, chunks[n]);
      assert FeedAll(chunks) == (done + more, rest);
    }
  }

  lemma {:induction false} LastPieceIsWhole(s: string, sep: string)
    requires sep != ""
    ensures var p := Split(s, sep); IndexOf(p[|p| - 1], sep) < 0
    decreases |s|
  {
    var i := IndexOf(s, sep);
    if i >= 0 { LastPieceIsWhole(s[i + |sep|..], sep); }
  }

  lemma SuffixAvoids(s: string, n: nat, c: char)
    requires n <= |s| && c !in s
    ensures c !in s[n..]
  {
  }

  /** Between two reads the buffer holds neither a CR nor a blank line. */
  lemma BufferIsClean(chunks: seq<string>)
    ensures '\r' !in FeedAll(chunks).1 && IndexOf(FeedAll(chunks).1, BLANK) < 0
  {
    var text := NormalizeEach(chunks);
    FeedAllIsOneCut(chunks);
    NormalizeEachRemovesCr(chunks);
    LastPieceIsSuffix(text, BLANK);
    LastPieceIsWhole(text, BLANK);
    SuffixAvoids(text, |text| - |Cut(text).1|, '\r');
  }

  /** Normalising chunk by chunk gives the same text exactly when no CR LF pair is cut. */
  lemma {:induction false} NormalizeEachExact(chunks: seq<string>)
    ensures |NormalizeEol(Flatten(chunks))| <= |NormalizeEach(chunks)|
    ensures KeepsCrlf(chunks) <==> NormalizeEach(chunks) == NormalizeEol(Flatten(chunks))
    ensures KeepsCrlf(chunks) <==> |NormalizeEach(chunks)| == |NormalizeEol(Flatten(chunks))|
  {
    if chunks != [] {
      var n := |chunks| - 1;
      NormalizeEachExact(chunks[..n]);
      NormalizePieces(Flatten(chunks[..n]), chunks[n]);
    }
  }

  lemma CutInjective(s: string, t: string)
    requires Cut(s) == Cut(t)
    ensures s == t
  {
    JoinUndoesSplit(s, BLANK);
    JoinUndoesSplit(t, BLANK);
    var (p, q) := (Split(s, BLANK), Split(t, BLANK));
    assert p == p[..|p| - 1] + [p[|p| - 1]];
    assert q == q[..|q| - 1] + [q[|q| - 1]];
  }

  lemma FeedOnce(text: string)
    ensures FeedAll([text]) == Cut(NormalizeEol(text))
  {
    FeedAllIsOneCut([text]);
    assert [text][..0] == [];
    assert NormalizeEach([text]) == NormalizeEol(text);
  }

  /** Chunking invariance, exactly: a chunking is read like the whole text if and
      only if it cuts no CR LF pair. */
  lemma ChunkingInvariance(chunks: seq<string>)
    ensures FeedAll(chunks) == FeedAll([Flatten(chunks)]) <==> KeepsCrlf(chunks)
  {
    FeedAllIsOneCut(chunks);
    FeedOnce(Flatten(chunks));
    NormalizeEachExact(chunks);
    if FeedAll(chunks) == FeedAll([Flatten(chunks)]) {
      CutInjective(NormalizeEach(chunks), NormalizeEol(Flatten(chunks)));
    }
  }

  // ----- the fields of one block -----

  /** What a regular expression's `\s` matches. */
  predicate IsJsSpace(c: char) {
    var u := c as int;
    0x09 <= u <= 0x0D || u == 0x20 || u == 0xA0 || u == 0x1680 || 0x2000 <= u <= 0x200A ||
    u == 0x2028 || u == 0x2029 || u == 0x202F || u == 0x205F || u == 0x3000 || u == 0xFEFF
  }

  /** The white space of section 12.2, and the line ends of section 12.3, of ECMA-262. */
  const JS_SPACES :=
    "\t\n\U{0B}\U{0C}\r \U{A0}\U{1680}\U{2000}\U{2001}\U{2002}\U{2003}\U{2004}\U{2005}\U{2006}\U{2007}\U{2008}"
    + "\U{2009}\U{200A}\U{2028}\U{2029}\U{202F}\U{205F}\U{3000}\U{FEFF}"

  lemma JsSpacesExactly(c: char)
    ensures IsJsSpace(c) <==> c in JS_SPACES
  {
  }

  function StripLeft(s: string): (r: string)
    ensures r != "" ==> !IsJsSpace(r[0])
  {
    if s != "" && IsJsSpace(s[0]) then StripLeft(s[1..]) else s
  }

  /** The value of the decimal digits at the start of `s`, continuing from `acc`. */
  function LeadingDigits(s: string, acc: nat): nat {
    if s != "" && '0' <= s[0] <= '9'
    then LeadingDigits(s[1..], acc * 10 + (s[0] as int - '0' as int))
    else acc
  }

  /** `Number.parseInt(s, 10)`, with None for NaN. */
  function ParseInt(s: string): Option<int> {
    var t := StripLeft(s);
    var negative := t != "" && t[0] == '-';
    var digits := if t != "" && (t[0] == '-' || t[0] == '+') then t[1..] else t;
    if digits != "" && '0' <= digits[0] <= '9' then
      var n: int := LeadingDigits(digits, 0);
      Some(if negative then -n else n)
    else
      None
  }

  /** What a line adds to the values of `field`. */
  function FieldValue(line: string, field: string): seq<string> {
    if field <= line then [StripLeft(line[|field|..])] else []
  }

  /** The values of the lines carrying `field`, in order. */
  function FieldValues(lines: seq<string>, field: string): seq<string> {
    if lines == [] then []
    else FieldValues(lines[..|lines| - 1], field) + FieldValue(lines[|lines| - 1], field)
  }

  function LastOf(values: seq<string>): Option<string> {
    if values == [] then None else Some(values[|values| - 1])
  }

  /** The last of the values that is a number. */
  function LastNumber(values: seq<string>): Option<int> {
    if values == [] then None
    else
      var parsed := ParseInt(values[|values| - 1]);
      if parsed.Some? then parsed else LastNumber(values[..|values| - 1])
  }

  /** `JSON.parse`, and the response validator and transformer in sequence
      (None where one of them throws). */
  datatype Hooks<!J> = Hooks(parseJson: string -> Option<J>, accept: J -> Option<J>)

  datatype Data<+J> = Raw(text: string) | Parsed(json: J)

  datatype Payload<+J> = Absent | Rejected | Present(data: Data<J>)

  /** What a block says. */
  datatype Block<+J> = Block(payload: Payload<J>, event: Option<string>, id: Option<string>, retry: Option<int>)

  function PayloadOf<J>(hooks: Hooks<J>, dataLines: seq<string>): Payload<J> {
    if dataLines == [] then Absent
    else
      var rawData := Join(dataLines, "\n");
      match hooks.parseJson(rawData)
      case None => Present(Raw(rawData))
      case Some(json) =>
        match hooks.accept(json)
        case None => Rejected
        case Some(shown) => Present(Parsed(shown))
  }

  function ParseBlock<J>(hooks: Hooks<J>, text: string): Block<J> {
    var lines := Split(text, "\n");
    Block(PayloadOf(hooks, FieldValues(lines, "data:")), LastOf(FieldValues(lines, "event:")),
          LastOf(FieldValues(lines, "id:")), LastNumber(FieldValues(lines, "retry:")))
  }

  function ParseAll<J>(hooks: Hooks<J>, texts: seq<string>): (blocks: seq<Block<J>>)
    ensures |blocks| == |texts|
    ensures forall i :: 0 <= i < |texts| ==> blocks[i] == ParseBlock(hooks, texts[i])
  {
    seq(|texts|, i requires 0 <= i < |texts| => ParseBlock(hooks, texts[i]))
  }

  // ----- dispatching blocks -----

  datatype StreamEvent<+J> = StreamEvent(data: Option<Data<J>>, event: Option<string>, id: Option<string>, retry: real)

  datatype Reader<+J> = Reader(
    lastEventId: Option<string>,
    retryDelay: real,
    events: seq<StreamEvent<J>>,
    yielded: seq<Data<J>>,
    failed: bool)

  function IdAfter(id: Option<string>, before: Option<string>): Option<string> {
    if id.Some? then id else before
  }

  function DelayAfter(retry: Option<int>, before: real): real {
    if retry.Some? then retry.value as real else before
  }

  /** One block: the id and the delay are recorded first, so a rejected payload
      leaves them behind although its event is never shown. */
  function Dispatch<J>(r: Reader<J>, b: Block<J>): Reader<J> {
    if r.failed then r
    else
      var id := IdAfter(b.id, r.lastEventId);
      var retry := DelayAfter(b.retry, r.retryDelay);
      var seen := r.(lastEventId := id, retryDelay := retry);
      match b.payload
      case Rejected => seen.(failed := true)
      case Absent => seen.(events := r.events + [StreamEvent(None, b.event, id, retry)])
      case Present(data) =>
        seen.(events := r.events + [StreamEvent(Some(data), b.event, id, retry)], yielded := r.yielded + [data])
  }

  function DispatchAll<J>(r: Reader<J>, blocks: seq<Block<J>>): Reader<J> {
    if blocks == [] then r
    else Dispatch(DispatchAll(r, blocks[..|blocks| - 1]), blocks[|blocks| - 1])
  }

  lemma {:induction false} DispatchAppend<J>(r: Reader<J>, a: seq<Block<J>>, b: seq<Block<J>>)
    ensures DispatchAll(r, a + b) == DispatchAll(DispatchAll(r, a), b)
  {
    if b == [] {
      assert a + b == a;
    } else {
      DispatchAppend(r, a, b[..|b| - 1]);
      assert (a + b)[..|a + b| - 1] == a + b[..|b| - 1];
    }
  }

  lemma {:induction false} FailureSticks<J>(r: Reader<J>, blocks: seq<Block<J>>)
    requires r.failed
    ensures DispatchAll(r, blocks) == r
  {
    if blocks != [] { FailureSticks(r, blocks[..|blocks| - 1]); }
  }
}
