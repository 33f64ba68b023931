/** Which cuts through a CR LF pair change the blocks that are read, and which do not. */
module SseBreaks {
  import opened Text
  import opened SseParser
  import opened SseWire

  // ----- blocks without the extra blank lines -----

  /** A block as it counts: without an empty line at its beginning. */
  function Body(block: string): string {
    if block != "" && block[0] == '\n' then block[1..] else block
  }

  /** The blocks that say anything. */
  function Bodies(blocks: seq<string>): seq<string> {
    if blocks == [] then []
    else
      var last := Body(blocks[|blocks| - 1]);
      Bodies(blocks[..|blocks| - 1]) + if last == "" then [] else [last]
  }

  lemma BodiesSnoc(blocks: seq<string>, last: string)
    ensures Bodies(blocks + [last]) == Bodies(blocks) + if Body(last) == "" then [] else [Body(last)]
  {
    assert (blocks + [last])[..|blocks|] == blocks;
  }

  lemma {:induction false} BodiesOfEntries(log: seq<string>)
    requires ValidEntries(log)
    ensures Bodies(log) == log
  {
    if log != [] {
      var n := |log| - 1;
      assert ValidEntries(log[..n]) by { assert forall i :: 0 <= i < n ==> log[..n][i] == log[i]; }
      BodiesOfEntries(log[..n]);
      assert ValidEntry(log[n]);
    }
  }

  // ----- reading character by character -----

  /** What has been read of a text: the blocks that say anything, and the body begun. */
  datatype Scan = Scan(done: seq<string>, body: string)

  function ScanOf(text: string): Scan {
    Scan(Bodies(Cut(text).0), Body(Cut(text).1))
  }

  function Next(s: Scan, c: char): Scan {
    if c != '\n' then s.(body := s.body + [c])
    else if s.body == "" then s
    else if s.body[|s.body| - 1] == '\n' then Scan(s.done + [s.body[..|s.body| - 1]], "")
    else s.(body := s.body + [c])
  }

  predicate EndsInLf(s: string) {
    s != "" && s[|s| - 1] == '\n'
  }

  lemma BlankAtEnd(buffer: string, c: char)
    requires IndexOf(buffer, BLANK) < 0
    ensures IndexOf(buffer + [c], BLANK) == if c == '\n' && EndsInLf(buffer) then |buffer| - 1 else -1
  {
    var s := buffer + [c];
    var i := IndexOf(s, BLANK);
    if c == '\n' && EndsInLf(buffer) {
      assert OccursAt(s, BLANK, |buffer| - 1);
      IndexOfIsFirst(s, BLANK, |buffer| - 1);
    }
    if i >= 0 {
      assert s[i + 0] == BLANK[0] && s[i + 1] == BLANK[1];
      if i + 1 < |buffer| {
        assert OccursAt(buffer, BLANK, i);
        IndexOfIsFirst(buffer, BLANK, i);
      }
    }
  }

  lemma CutChar(buffer: string, c: char)
    requires IndexOf(buffer, BLANK) < 0
    ensures Cut(buffer + [c]) ==
            if c == '\n' && EndsInLf(buffer) then ([buffer[..|buffer| - 1]], "") else ([], buffer + [c])
  {
    BlankAtEnd(buffer, c);
    var s := buffer + [c];
    if c == '\n' && EndsInLf(buffer) {
      var n := |buffer| - 1;
      assert s[..n] == buffer[..n] && s[n + 2..] == "";
      assert Split(s, BLANK) == [buffer[..n]] + Split("", BLANK) == [buffer[..n], ""];
    } else {
      assert Split(s, BLANK) == [s];
    }
  }

  lemma LeadingBlank(s: string)
    ensures |s| >= 2 && s[0] == '\n' && s[1] == '\n' ==> IndexOf(s, BLANK) >= 0
  {
    if |s| >= 2 && s[0] == '\n' && s[1] == '\n' {
      assert OccursAt(s, BLANK, 0);
      IndexOfIsFirst(s, BLANK, 0);
    }
  }

  /** In a buffer without blank lines at most one line feed precedes the body. */
  lemma NextBody(buffer: string, c: char)
    requires IndexOf(buffer, BLANK) < 0
    ensures EndsInLf(Body(buffer)) ==>
              EndsInLf(buffer) && Body(buffer[..|buffer| - 1]) == Body(buffer)[..|Body(buffer)| - 1]
    ensures EndsInLf(buffer) && !EndsInLf(Body(buffer)) ==> buffer == "\n"
    ensures buffer != "" || c != '\n' ==> Body(buffer + [c]) == Body(buffer) + [c]
  {
    LeadingBlank(buffer);
  }

  lemma ScanChar(text: string, c: char)
    ensures ScanOf(text + [c]) == Next(ScanOf(text), c)
  {
    var (done, buffer) := Cut(text);
    LastPieceIsWhole(text, BLANK);
    CutAppend(text, [c]);
    CutChar(buffer, c);
    NextBody(buffer, c);
    if c == '\n' && EndsInLf(buffer) {
      BodiesSnoc(done, buffer[..|buffer| - 1]);
    } else {
      assert done + [] == done;
    }
  }

  /** What the characters of `x` make of a scan. */
  function Steps(s: Scan, x: string): Scan {
    if x == "" then s else Next(Steps(s, x[..|x| - 1]), x[|x| - 1])
  }

  function Longer(text: string, c: char): string {
    text + [c]
  }

  /** A way of scanning that goes character by character. */
  ghost predicate IsStepwise(scan: string -> Scan) {
    forall text, c :: scan(Longer(text, c)) == Next(scan(text), c)
  }

  lemma {:induction false} StepwiseAppend(scan: string -> Scan, text: string, x: string)
    requires IsStepwise(scan)
    ensures scan(text + x) == Steps(scan(text), x)
  {
    if x == "" {
      assert text + x == text;
    } else {
      var n := |x| - 1;
      var before := text + x[..n];
      StepwiseAppend(scan, text, x[..n]);
      assert scan(Longer(before, x[n])) == Next(scan(before), x[n]);
      assert text + x == Longer(before, x[n]);
    }
  }

  lemma ScanIsStepwise()
    ensures IsStepwise(ScanOf)
  {
    forall text, c ensures ScanOf(Longer(text, c)) == Next(ScanOf(text), c) {
      ScanChar(text, c);
    }
  }

  lemma ScanAppend(a: string, b: string, x: string)
    requires ScanOf(a) == ScanOf(b)
    ensures ScanOf(a + x) == ScanOf(b + x)
  {
    ScanIsStepwise();
    StepwiseAppend(ScanOf, a, x);
    StepwiseAppend(ScanOf, b, x);
  }

  lemma {:induction false} StepsGrow(s: Scan, x: string)
    ensures s.done <= Steps(s, x).done
  {
    if x != "" { StepsGrow(s, x[..|x| - 1]); }
  }

  lemma ScanGrows(a: string, x: string)
    ensures ScanOf(a).done <= ScanOf(a + x).done
  {
    ScanIsStepwise();
    StepwiseAppend(ScanOf, a, x);
    StepsGrow(ScanOf(a), x);
  }

  /** A blank line more changes nothing. */
  lemma BlankIsIdle(text: string)
    requires ScanOf(text).body == ""
    ensures ScanOf(text + "\n") == ScanOf(text)
  {
    ScanChar(text, '\n');
  }

  lemma NoBodyAfterBlank(text: string)
    ensures ScanOf(text + "\n" + "\n").body == ""
  {
    ScanChar(text, '\n');
    ScanChar(text + "\n", '\n');
    TwoFeeds(ScanOf(text));
  }

  lemma TwoFeeds(s: Scan)
    ensures Next(Next(s, '\n'), '\n').body == ""
  {
  }

  /** A reader that is one line feed ahead at the end of a line comes level again with the
      line feed that really follows. */
  lemma LevelAgain(read: string, text: string, x: string)
    requires EndsInLf(text) && ScanOf(read) == ScanOf(text + "\n")
    requires x != "" && x[0] == '\n'
    ensures ScanOf(read + x) == ScanOf(text + x)
  {
    var start := text[..|text| - 1];
    assert text == start + "\n" && x == "\n" + x[1..];
    NoBodyAfterBlank(start);
    BlankIsIdle(text + "\n");
    ScanAppend(read, text + "\n", "\n");
    assert ScanOf(read + "\n") == ScanOf(text + "\n");
    ScanAppend(read + "\n", text + "\n", x[1..]);
    Assoc(read, "\n", x[1..]);
    Assoc(text, "\n", x[1..]);
  }

  // ----- line ends -----

  predicate IsLineEnd(c: char) {
    c == '\r' || c == '\n'
  }

  lemma {:induction false} EndOfNormalized(s: string)
    ensures EndsInLf(NormalizeEol(s)) <==> s != "" && IsLineEnd(s[|s| - 1])
  {
    if s != "" {
      var n := |s| - 1;
      EndOfNormalized(s[..n]);
      assert s == s[..n] + [s[n]];
      NormalizeAppend(s[..n], [s[n]], false);
      assert [s[n]][1..] == "";
    }
  }

  lemma StartOfNormalized(s: string)
    requires s != ""
    ensures NormalizeEol(s) != "" && (NormalizeEol(s)[0] == '\n' <==> IsLineEnd(s[0]))
  {
  }

  // ----- harmless cuts -----

  /** The CR LF pair around position `p` ends the last line of its block, or is the blank
      line behind it. */
  predicate AtBlockEnd(raw: string, p: nat) {
    (2 <= p <= |raw| && IsLineEnd(raw[p - 2])) || (p + 1 < |raw| && IsLineEnd(raw[p + 1]))
  }

  /** Every CR LF pair of `raw` that the chunks cut stands at the end of a block. */
  predicate SafeCuts(chunks: seq<string>, raw: string) {
    chunks == [] ||
    (var n := |chunks| - 1;
     var before := Flatten(chunks[..n]);
     SafeCuts(chunks[..n], raw) && (CutsCrlf(before, chunks[n]) ==> AtBlockEnd(raw, |before|)))
  }

  lemma {:induction false} KeptCrlfIsSafe(chunks: seq<string>, raw: string)
    requires KeepsCrlf(chunks)
    ensures SafeCuts(chunks, raw)
  {
    if chunks != [] { KeptCrlfIsSafe(chunks[..|chunks| - 1], raw); }
  }

  /** The reader stands where it would without the cuts, or one line feed ahead at the end of
      a block, which the text goes on to deliver. */
  predicate Level(read: string, flat: string, raw: string) {
    var text := NormalizeEol(flat);
    ScanOf(read) == ScanOf(text) || Ahead(read, flat, raw)
  }

  predicate Ahead(read: string, flat: string, raw: string) {
    var text := NormalizeEol(flat);
    ScanOf(read) == ScanOf(text + "\n") && text + "\n" <= NormalizeEol(raw) && EndsInLf(flat)
  }

  lemma PlainChunk(flat: string, chunk: string)
    requires !CutsCrlf(flat, chunk)
    ensures NormalizeEol(flat + chunk) == NormalizeEol(flat) + NormalizeEol(chunk)
  {
    NormalizePieces(flat, chunk);
  }

  lemma CutChunk(flat: string, chunk: string)
    requires CutsCrlf(flat, chunk)
    ensures NormalizeEol(chunk) == "\n" + NormalizeEol(chunk[1..])
    ensures NormalizeEol(flat + chunk) == NormalizeEol(flat) + NormalizeEol(chunk[1..])
  {
    NormalizeAppend(flat, chunk, false);
    assert Normalize(chunk, true) == "" + Normalize(chunk[1..], false);
  }

  lemma NextInRaw(flat: string, chunk: string, raw: string)
    requires flat + chunk <= raw
    ensures NormalizeEol(flat + chunk) <= NormalizeEol(raw)
  {
    NormalizePrefix(flat + chunk, raw);
  }

  lemma SameNext(text: string, x: string, whole: string)
    requires text + x <= whole && text + "\n" <= whole && x != ""
    ensures x[0] == '\n'
  {
    assert (text + x)[|text|] == whole[|text|] == (text + "\n")[|text|];
  }

  /** A chunk that cuts no pair keeps the reader level. */
  lemma LevelAfterPlain(read: string, flat: string, chunk: string, raw: string)
    requires Level(read, flat, raw) && !CutsCrlf(flat, chunk) && flat + chunk <= raw
    ensures Level(read + NormalizeEol(chunk), flat + chunk, raw)
  {
    var (text, x) := (NormalizeEol(flat), NormalizeEol(chunk));
    PlainChunk(flat, chunk);
    NextInRaw(flat, chunk, raw);
    if ScanOf(read) == ScanOf(text) {
      ScanAppend(read, text, x);
    } else if chunk == "" {
      assert x == "" && read + x == read && flat + chunk == flat;
    } else {
      StartOfNormalized(chunk);
      SameNext(text, x, NormalizeEol(raw));
      EndOfNormalized(flat);
      LevelAgain(read, text, x);
    }
  }

  lemma TextAfterCr(flat: string)
    requires EndsInCr(flat, false)
    ensures EndsInLf(NormalizeEol(flat))
    ensures |flat| >= 2 && IsLineEnd(flat[|flat| - 2]) ==> ScanOf(NormalizeEol(flat)).body == ""
    ensures NormalizeEol(flat) == NormalizeEol(flat[..|flat| - 1]) + "\n"
  {
    var n := |flat| - 1;
    assert flat == flat[..n] + "\r";
    NormalizeAppend(flat[..n], "\r", false);
    NormalizeLone(EndsInCr(flat[..n], false));
    EndOfNormalized(flat[..n]);
    if n >= 1 && IsLineEnd(flat[n - 1]) {
      var text := NormalizeEol(flat[..n]);
      assert text == text[..|text| - 1] + "\n";
      NoBodyAfterBlank(text[..|text| - 1]);
    }
  }

  lemma NormalizeLone(afterCr: bool)
    ensures Normalize("\r", afterCr) == "\n"
  {
    assert "\r"[1..] == "";
  }

  /** What follows a CR LF pair of the raw text, normalised. */
  lemma TextBehindPair(flat: string, raw: string)
    requires EndsInCr(flat, false) && flat <= raw && |flat| + 1 < |raw| && raw[|flat|] == '\n'
    ensures var next := |NormalizeEol(flat)|;
            next < |NormalizeEol(raw)| && NormalizeEol(flat) <= NormalizeEol(raw)
            && (NormalizeEol(raw)[next] == '\n' <==> IsLineEnd(raw[|flat| + 1]))
  {
    var tail := raw[|flat|..];
    assert raw == flat + tail;
    CutChunk(flat, tail);
    StartOfNormalized(tail[1..]);
  }

  /** The line feed too many is one blank line more. */
  lemma CutInBlankLine(read: string, text: string, x: string)
    requires ScanOf(read) == ScanOf(text) && ScanOf(text).body == ""
    ensures ScanOf(read + ("\n" + x)) == ScanOf(text + x)
  {
    BlankIsIdle(text);
    ScanAppend(read, text, "\n");
    ScanAppend(read + "\n", text, x);
    Assoc(read, "\n", x);
  }

  /** The line feed too many ends the block early, and the next one is then the blank line more. */
  lemma CutInLastLine(read: string, text: string, x: string)
    requires ScanOf(read) == ScanOf(text) && EndsInLf(text) && x != "" && x[0] == '\n'
    ensures ScanOf(read + ("\n" + x)) == ScanOf(text + x)
  {
    ScanAppend(read, text, "\n");
    LevelAgain(read + "\n", text, x);
    Assoc(read, "\n", x);
  }

  lemma CutAtEnd(read: string, flat: string, raw: string)
    requires ScanOf(read) == ScanOf(NormalizeEol(flat)) && EndsInCr(flat, false) && flat + "\n" <= raw
    requires |flat| + 1 < |raw| && IsLineEnd(raw[|flat| + 1])
    ensures Ahead(read + NormalizeEol("\n"), flat + "\n", raw)
  {
    var text := NormalizeEol(flat);
    assert flat == raw[..|flat|] && raw[|flat|] == '\n';
    CutChunk(flat, "\n");
    assert NormalizeEol("") == "" && text + "" == text && "\n" + "" == "\n" && "\n"[1..] == "";
    TextBehindPair(flat, raw);
    OneMore(text, NormalizeEol(raw));
    ScanAppend(read, text, "\n");
  }

  lemma InRaw(flat: string, chunk: string, raw: string)
    requires flat + chunk <= raw
    ensures |flat| + |chunk| <= |raw|
    ensures forall i :: 0 <= i < |flat| ==> raw[i] == flat[i]
    ensures forall i :: 0 <= i < |chunk| ==> raw[|flat| + i] == chunk[i]
  {
    assert forall i :: 0 <= i < |flat + chunk| ==> raw[i] == (flat + chunk)[i];
    assert forall i :: 0 <= i < |chunk| ==> (flat + chunk)[|flat| + i] == chunk[i];
  }

  /** The two ways in which a cut pair stands at the end of a block, or a text that ends
      with it. */
  lemma WhereItStands(flat: string, chunk: string, raw: string)
    requires CutsCrlf(flat, chunk) && flat + chunk <= raw && AtBlockEnd(raw, |flat|)
    ensures ScanOf(NormalizeEol(flat)).body == "" || (|flat| + 1 < |raw| && IsLineEnd(raw[|flat| + 1]))
    ensures |flat| + 1 < |raw| && IsLineEnd(raw[|flat| + 1]) && chunk != "\n" ==>
              NormalizeEol(chunk[1..]) != "" && NormalizeEol(chunk[1..])[0] == '\n'
  {
    TextAfterCr(flat);
    InRaw(flat, chunk, raw);
    if chunk != "\n" { StartOfNormalized(chunk[1..]); }
  }

  /** A chunk that cuts a pair at the end of a block keeps the reader level. */
  lemma LevelAfterCut(read: string, flat: string, chunk: string, raw: string)
    requires ScanOf(read) == ScanOf(NormalizeEol(flat)) && CutsCrlf(flat, chunk) && flat + chunk <= raw
    requires AtBlockEnd(raw, |flat|)
    ensures Level(read + NormalizeEol(chunk), flat + chunk, raw)
  {
    CutChunk(flat, chunk);
    WhereItStands(flat, chunk, raw);
    if ScanOf(NormalizeEol(flat)).body == "" {
      CutInBlankLine(read, NormalizeEol(flat), NormalizeEol(chunk[1..]));
    } else if chunk != "\n" {
      TextAfterCr(flat);
      CutInLastLine(read, NormalizeEol(flat), NormalizeEol(chunk[1..]));
    } else {
      CutAtEnd(read, flat, raw);
    }
  }

  lemma OneMore(text: string, whole: string)
    requires text <= whole && |text| < |whole| && whole[|text|] == '\n'
    ensures text + "\n" <= whole
  {
  }

  /** With safe cuts the reader stays level. */
  lemma {:induction false} StaysLevel(chunks: seq<string>, raw: string)
    requires Flatten(chunks) <= raw && SafeCuts(chunks, raw)
    ensures Level(NormalizeEach(chunks), Flatten(chunks), raw)
  {
    if chunks != [] {
      var n := |chunks| - 1;
      var (read, flat) := (NormalizeEach(chunks[..n]), Flatten(chunks[..n]));
      PrefixOfPrefix(flat, chunks[n], raw);
      StaysLevel(chunks[..n], raw);
      if CutsCrlf(flat, chunks[n]) {
        LevelAfterCut(read, flat, chunks[n], raw);
      } else {
        LevelAfterPlain(read, flat, chunks[n], raw);
      }
    }
  }

  lemma PrefixOfPrefix(a: string, b: string, whole: string)
    requires a + b <= whole
    ensures a <= whole
  {
    assert a == (a + b)[..|a|];
  }
}
