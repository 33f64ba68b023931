/** Which chunkings of a replay leave its entries as they are: exactly those that cut CR LF
    pairs at the end of an entry only. */
module SseExact {
  import opened Text
  import opened SseParser
  import opened SseWire
  import opened SseBreaks

  /** The chunks are the beginning of a replay from entry `k` on, in some choice of line ends. */
  predicate IsReplay(log: seq<string>, k: nat, chunks: seq<string>, raw: string) {
    k <= |log| && ValidEntries(log) && NormalizeEol(raw) == Wire(log, k) && Flatten(chunks) <= raw
  }

  lemma BodiesOfSlice(log: seq<string>, k: nat, m: nat)
    requires ValidEntries(log) && k <= m <= |log|
    ensures Bodies(log[k..m]) == log[k..m]
  {
    assert ValidEntries(log[k..m]) by { assert forall i :: 0 <= i < m - k ==> log[k..m][i] == log[k + i]; }
    BodiesOfEntries(log[k..m]);
  }

  lemma ReadIsScan(chunks: seq<string>)
    ensures Bodies(FeedAll(chunks).0) == ScanOf(NormalizeEach(chunks)).done
  {
    FeedAllIsOneCut(chunks);
  }

  /** With safe cuts the blocks that say anything are the next entries of the log. */
  lemma SafeCutsReadEntries(log: seq<string>, k: nat, chunks: seq<string>, raw: string) returns (m: nat)
    requires IsReplay(log, k, chunks, raw) && SafeCuts(chunks, raw)
    ensures k <= m <= |log| && Bodies(FeedAll(chunks).0) == log[k..m]
  {
    var (read, flat) := (NormalizeEach(chunks), Flatten(chunks));
    StaysLevel(chunks, raw);
    NormalizePrefix(flat, raw);
    ReadIsScan(chunks);
    var text := if ScanOf(read) == ScanOf(NormalizeEol(flat)) then NormalizeEol(flat) else NormalizeEol(flat) + "\n";
    m := CutOfPrefix(log, k, text);
    BodiesOfSlice(log, k, m);
  }

  /** A whole replay is read to its end. */
  lemma WholeReplayReadsAll(log: seq<string>, k: nat, chunks: seq<string>)
    requires IsReplay(log, k, chunks, Flatten(chunks)) && SafeCuts(chunks, Flatten(chunks))
    ensures Bodies(FeedAll(chunks).0) == log[k..|log|]
  {
    StaysLevel(chunks, Flatten(chunks));
    ReadIsScan(chunks);
    CutOfWire(log, k);
    BodiesOfSlice(log, k, |log|);
    assert log[k..] == log[k..|log|];
  }

  // ----- other cuts -----

  lemma BodyOfLine(start: string)
    requires start != "" && !EndsInLf(start)
    ensures ScanOf(start).body != "" && !EndsInLf(ScanOf(start).body)
  {
    var n := |start| - 1;
    assert start == start[..n] + [start[n]];
    ScanChar(start[..n], start[n]);
  }

  /** At the end of a line with something in it the body is that of the line and the line feed. */
  lemma BodyAtLineEnd(start: string)
    requires start != "" && !EndsInLf(start)
    ensures var x := ScanOf(start).body;
            && x != ""
            && ScanOf(start + "\n") == Scan(ScanOf(start).done, x + "\n")
            && ScanOf(start + "\n" + "\n") == Scan(ScanOf(start).done + [x], "")
  {
    BodyOfLine(start);
    ScanChar(start, '\n');
    ScanChar(start + "\n", '\n');
    var x := ScanOf(start).body;
    assert (x + "\n")[..|x|] == x;
  }

  lemma WireStart(log: seq<string>, k: nat)
    requires k <= |log| && ValidEntries(log)
    ensures Wire(log, k) != "" ==> Wire(log, k)[0] != '\n'
  {
    if k < |log| { assert ValidEntry(log[k]); }
  }

  lemma LineBeforePair(log: seq<string>, k: nat, flat: string, raw: string)
    requires k <= |log| && ValidEntries(log) && NormalizeEol(raw) == Wire(log, k) && flat <= raw
    requires EndsInCr(flat, false) && !(|flat| >= 2 && IsLineEnd(flat[|flat| - 2]))
    ensures NormalizeEol(flat) <= Wire(log, k)
    ensures var start := NormalizeEol(flat[..|flat| - 1]);
            NormalizeEol(flat) == start + "\n" && start != "" && !EndsInLf(start)
  {
    var start := NormalizeEol(flat[..|flat| - 1]);
    TextAfterCr(flat);
    EndOfNormalized(flat[..|flat| - 1]);
    NormalizePrefix(flat, raw);
    WireStart(log, k);
    assert Wire(log, k)[0] == NormalizeEol(flat)[0] == (start + "\n")[0];
  }

  /** What the early end of a block leaves is no entry: it is shorter than the one under way. */
  lemma ShorterEntry(log: seq<string>, m: nat, buffer: string, rest: string, x: string)
    requires m <= |log| && ValidEntries(log) && GoesOn(log, m, buffer, rest)
    requires Body(buffer) == x + "\n" && x != "" && (rest != "" ==> rest[0] != '\n')
    ensures m < |log| && |x| < |log[m]|
  {
    if m < |log| {
      assert ValidEntry(log[m]);
      assert buffer != "" && buffer[0] == (log[m] + BLANK)[0];
    }
  }

  lemma PairIsLast(flat: string, raw: string)
    requires EndsInCr(flat, false) && raw == flat + "\n"
    ensures NormalizeEol(raw) == NormalizeEol(flat)
  {
    CutChunk(flat, "\n");
    assert "\n"[1..] == "" && NormalizeEol("") == "";
  }

  lemma NotLineFeedNext(flat: string, raw: string)
    requires EndsInCr(flat, false) && flat + "\n" <= raw && !AtBlockEnd(raw, |flat|)
    ensures NormalizeEol(flat) <= NormalizeEol(raw)
    ensures var rest := NormalizeEol(raw)[|NormalizeEol(flat)|..]; rest != "" ==> rest[0] != '\n'
  {
    InRaw(flat, "\n", raw);
    NormalizePrefix(flat, raw);
    if |raw| == |flat| + 1 {
      assert raw == flat + "\n";
      PairIsLast(flat, raw);
    } else {
      TextBehindPair(flat, raw);
    }
  }

  /** Right behind an unsafe cut the blocks read are entries and a piece of the next one. */
  lemma PieceOfEntry(log: seq<string>, k: nat, flat: string, raw: string) returns (m: nat, x: string)
    requires k <= |log| && ValidEntries(log) && NormalizeEol(raw) == Wire(log, k)
    requires EndsInCr(flat, false) && flat + "\n" <= raw && !AtBlockEnd(raw, |flat|)
    ensures k <= m < |log| && |x| < |log[m]|
    ensures ScanOf(NormalizeEol(flat) + "\n").done == log[k..m] + [x]
  {
    var text := NormalizeEol(flat);
    InRaw(flat, "\n", raw);
    LineBeforePair(log, k, flat, raw);
    var start := NormalizeEol(flat[..|flat| - 1]);
    BodyAtLineEnd(start);
    x := ScanOf(start).body;
    NotLineFeedNext(flat, raw);
    m := CutOfPrefix(log, k, text);
    BodiesOfSlice(log, k, m);
    ShorterEntry(log, m, Cut(text).1, Wire(log, k)[|text|..], x);
  }

  /** After an unsafe cut something is read that is no entry of the log. */
  lemma {:induction false} UnsafeCutMisreads(log: seq<string>, k: nat, chunks: seq<string>, raw: string)
    returns (m: nat, x: string)
    requires IsReplay(log, k, chunks, raw) && !SafeCuts(chunks, raw)
    ensures k <= m < |log| && |x| < |log[m]| && log[k..m] + [x] <= Bodies(FeedAll(chunks).0)
  {
    var n := |chunks| - 1;
    var (read, flat) := (NormalizeEach(chunks[..n]), Flatten(chunks[..n]));
    PrefixOfPrefix(flat, chunks[n], raw);
    ReadIsScan(chunks);
    if SafeCuts(chunks[..n], raw) {
      StaysLevel(chunks[..n], raw);
      CutChunk(flat, chunks[n]);
      FirstOfChunk(flat, chunks[n], raw);
      m, x := PieceOfEntry(log, k, flat, raw);
      ScanAppend(read, NormalizeEol(flat), "\n");
      ScanGrows(read + "\n", NormalizeEol(chunks[n][1..]));
      Assoc(read, "\n", NormalizeEol(chunks[n][1..]));
    } else {
      m, x := UnsafeCutMisreads(log, k, chunks[..n], raw);
      ReadIsScan(chunks[..n]);
      ScanGrows(read, NormalizeEol(chunks[n]));
    }
  }

  lemma FirstOfChunk(flat: string, chunk: string, raw: string)
    requires CutsCrlf(flat, chunk) && flat + chunk <= raw
    ensures flat + "\n" <= raw
  {
    assert flat + chunk == (flat + "\n") + chunk[1..];
    PrefixOfPrefix(flat + "\n", chunk[1..], raw);
  }

  /** The blocks that say anything are entries of the log, in order from `k` on, exactly when
      every CR LF pair that is cut ends the last line of its entry or is the blank line. */
  lemma EntriesExactly(log: seq<string>, k: nat, chunks: seq<string>, raw: string)
    requires IsReplay(log, k, chunks, raw)
    ensures (exists m :: k <= m <= |log| && Bodies(FeedAll(chunks).0) == log[k..m]) <==> SafeCuts(chunks, raw)
  {
    var read := Bodies(FeedAll(chunks).0);
    if SafeCuts(chunks, raw) {
      var m := SafeCutsReadEntries(log, k, chunks, raw);
    } else {
      var m, x := UnsafeCutMisreads(log, k, chunks, raw);
      assert (log[k..m] + [x])[m - k] == read[m - k] == x;
      forall m' | k <= m' <= |log| ensures read != log[k..m'] {
        if m' > m { assert log[k..m'][m - k] == log[m]; }
      }
    }
  }
}
