/** A server's log as text: entries closed by blank lines. */
module SseWire {
  import opened Text
  import opened SseParser

  /** A log entry as sent is one block: it holds no blank line and does not begin with one. */
  predicate ValidEntry(block: string) {
    block != "" && block[0] != '\n' && IndexOf(block + BLANK, BLANK) == |block|
  }

  predicate ValidEntries(log: seq<string>) {
    forall i {:trigger ValidEntry(log[i])} :: 0 <= i < |log| ==> ValidEntry(log[i])
  }

  /** The entries from position `k` on as text. */
  function Wire(log: seq<string>, k: nat): string
    requires k <= |log|
    decreases |log| - k
  {
    if k == |log| then "" else log[k] + BLANK + Wire(log, k + 1)
  }

  // ----- splitting the text -----

  lemma NormalizePrefix(p: string, raw: string)
    requires p <= raw
    ensures NormalizeEol(p) <= NormalizeEol(raw)
  {
    assert raw == p + raw[|p|..];
    NormalizeAppend(p, raw[|p|..], false);
  }

  lemma CutOfEntry(block: string)
    requires ValidEntry(block)
    ensures Cut(block + BLANK) == ([block], "")
  {
    var s := block + BLANK;
    assert s[..|block|] == block && s[|block| + 2..] == "";
    assert Split(s, BLANK) == [block] + Split("", BLANK) == [block, ""];
  }

  lemma FirstEntry(log: seq<string>, k: nat, tail: string)
    requires ValidEntries(log) && k < |log|
    ensures Cut(log[k] + BLANK + tail) == ([log[k]] + Cut(tail).0, Cut(tail).1)
  {
    assert ValidEntry(log[k]);
    CutOfEntry(log[k]);
    CutAppend(log[k] + BLANK, tail);
    assert "" + tail == tail;
  }

  lemma NoEntry(log: seq<string>, k: nat, p: string)
    requires ValidEntries(log) && k < |log|
    requires |p| < |log[k] + BLANK| && p <= log[k] + BLANK
    ensures Cut(p) == ([], p)
  {
    assert ValidEntry(log[k]);
    var first := log[k] + BLANK;
    assert first == p + first[|p|..];
    if IndexOf(p, BLANK) >= 0 { IndexOfPrefix(p, first[|p|..], BLANK); }
    assert Split(p, BLANK) == [p];
  }

  lemma PrefixOfConcat(a: string, b: string, p: string)
    requires p <= a + b
    ensures if |a| <= |p| then p == a + p[|a|..] && p[|a|..] <= b else p <= a
  {
    if |a| <= |p| {
      assert p[..|a|] == (a + b)[..|a|] == a;
      assert p[|a|..] == (a + b)[|a|..|p|] == b[..|p| - |a|];
    } else {
      assert p == (a + b)[..|p|] == a[..|p|];
    }
  }

  /** Behind entry `n` the text goes on, after `p`, with the rest of the next entry. */
  predicate GoesOn(log: seq<string>, n: nat, buffer: string, rest: string)
    requires n <= |log|
  {
    if n == |log| then buffer == "" && rest == ""
    else |buffer| < |log[n]| + 2 && buffer <= log[n] + BLANK && rest != "" && rest[0] == (log[n] + BLANK)[|buffer|]
  }

  lemma RestOfConcat(a: string, b: string, p: string)
    requires p <= a + b
    ensures if |a| <= |p| then (a + b)[|p|..] == b[|p| - |a|..] else (a + b)[|p|..] == a[|p|..] + b
  {
  }

  lemma BehindEntry(log: seq<string>, k: nat, n: nat, q: string)
    requires ValidEntries(log) && k < n <= |log| && q <= Wire(log, k + 1)
    requires Cut(q).0 == log[k + 1..n] && GoesOn(log, n, Cut(q).1, Wire(log, k + 1)[|q|..])
    ensures var p := log[k] + BLANK + q;
            p <= Wire(log, k) && Cut(p).0 == log[k..n] && GoesOn(log, n, Cut(p).1, Wire(log, k)[|p|..])
  {
    var first := log[k] + BLANK;
    RestOfConcat(first, Wire(log, k + 1), first + q);
    FirstEntry(log, k, q);
    assert [log[k]] + log[k + 1..n] == log[k..n];
  }

  lemma InsideEntry(log: seq<string>, k: nat, p: string)
    requires ValidEntries(log) && k < |log| && |p| < |log[k] + BLANK| && p <= log[k] + BLANK
    ensures p <= Wire(log, k) && Cut(p).0 == [] && GoesOn(log, k, Cut(p).1, Wire(log, k)[|p|..])
  {
    RestOfConcat(log[k] + BLANK, Wire(log, k + 1), p);
    NoEntry(log, k, p);
  }

  /** A prefix of the wire text holds exactly the entries it holds completely; what is left
      over is the beginning of the next one. */
  lemma {:induction false} CutOfPrefix(log: seq<string>, k: nat, p: string) returns (n: nat)
    requires ValidEntries(log) && k <= |log|
    requires p <= Wire(log, k)
    ensures k <= n <= |log| && Cut(p).0 == log[k..n]
    ensures GoesOn(log, n, Cut(p).1, Wire(log, k)[|p|..])
    decreases |log| - k
  {
    n := k;
    if k == |log| {
      assert Split("", BLANK) == [""];
    } else {
      var first := log[k] + BLANK;
      PrefixOfConcat(first, Wire(log, k + 1), p);
      if |first| <= |p| {
        var q := p[|first|..];
        n := CutOfPrefix(log, k + 1, q);
        BehindEntry(log, k, n, q);
        assert first + q == p;
      } else {
        InsideEntry(log, k, p);
      }
    }
  }

  lemma {:induction false} CutOfWire(log: seq<string>, k: nat)
    requires ValidEntries(log) && k <= |log|
    ensures Cut(Wire(log, k)) == (log[k..], "")
    decreases |log| - k
  {
    if k == |log| {
      assert Split("", BLANK) == [""];
    } else {
      CutOfWire(log, k + 1);
      FirstEntry(log, k, Wire(log, k + 1));
      assert [log[k]] + log[k + 1..] == log[k..];
    }
  }

  lemma WholeReplay(log: seq<string>, n: nat, chunks: seq<string>)
    requires ValidEntries(log) && n <= |log|
    requires KeepsCrlf(chunks) && NormalizeEol(Flatten(chunks)) == Wire(log, n)
    ensures FeedAll(chunks) == (log[n..|log|], "")
  {
    NormalizeEachExact(chunks);
    FeedAllIsOneCut(chunks);
    CutOfWire(log, n);
    assert log[n..] == log[n..|log|];
  }
}
