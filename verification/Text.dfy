/** The string built-ins the client relies on: `indexOf`, `split` and `join`,
    with the laws that later modules need. */
module Text {
  predicate IsDigit(c: char) {
    '0' <= c <= '9'
  }

  lemma Assoc<T>(a: seq<T>, b: seq<T>, c: seq<T>)
    ensures a + b + c == a + (b + c)
  {
  }

  predicate OccursAt(s: string, pat: string, i: nat) {
    i + |pat| <= |s| && forall j :: 0 <= j < |pat| ==> s[i + j] == pat[j]
  }

  /** `s.indexOf(pat, i)`: the first occurrence from position `i` on, or -1. */
  function IndexFrom(s: string, pat: string, i: nat): (r: int)
    ensures r == -1 || (i <= r && OccursAt(s, pat, r))
    decreases |s| - i
  {
    if i + |pat| > |s| then -1
    else if OccursAt(s, pat, i) then i
    else IndexFrom(s, pat, i + 1)
  }

  /** `s.indexOf(pat)` */
  function IndexOf(s: string, pat: string): (r: int)
    ensures r == -1 || (0 <= r && OccursAt(s, pat, r))
  {
    IndexFrom(s, pat, 0)
  }

  lemma {:induction false} IndexFromIsFirst(s: string, pat: string, i: nat, k: nat)
    requires i <= k && OccursAt(s, pat, k)
    ensures i <= IndexFrom(s, pat, i) <= k
    decreases k - i
  {
    if i < k { IndexFromIsFirst(s, pat, i + 1, k); }
  }

  lemma IndexOfIsFirst(s: string, pat: string, k: nat)
    requires OccursAt(s, pat, k)
    ensures 0 <= IndexOf(s, pat) <= k
  {
    IndexFromIsFirst(s, pat, 0, k);
  }

  /** `s.split(sep)` for a non-empty separator. */
  function Split(s: string, sep: string): (parts: seq<string>)
    requires sep != ""
    ensures |parts| > 0
    decreases |s|
  {
    var i := IndexOf(s, sep);
    if i < 0 then [s] else [s[..i]] + Split(s[i + |sep|..], sep)
  }

  /** `parts.join(sep)`. */
  function Join(parts: seq<string>, sep: string): string {
    if |parts| == 0 then ""
    else if |parts| == 1 then parts[0]
    else parts[0] + sep + Join(parts[1..], sep)
  }

  function Flatten(parts: seq<string>): string {
    if parts == [] then ""
    else Flatten(parts[..|parts| - 1]) + parts[|parts| - 1]
  }

  /** The first occurrence is settled by any string that already contains it. */
  lemma IndexOfPrefix(a: string, b: string, pat: string)
    requires IndexOf(a, pat) >= 0
    ensures IndexOf(a + b, pat) == IndexOf(a, pat)
  {
    IndexOfIsFirst(a + b, pat, IndexOf(a, pat));
    var j := IndexOf(a + b, pat);
    assert OccursAt(a, pat, j);
    IndexOfIsFirst(a, pat, j);
  }

  /** The first piece and the others. */
  lemma SplitFound(s: string, sep: string)
    requires sep != "" && IndexOf(s, sep) >= 0
    ensures var i := IndexOf(s, sep);
            && i + |sep| <= |s| && s == s[..i] + sep + s[i + |sep|..]
            && Split(s, sep) == [s[..i]] + Split(s[i + |sep|..], sep)
  {
    var i := IndexOf(s, sep);
    assert s[i..i + |sep|] == sep;
    assert s == s[..i] + s[i..i + |sep|] + s[i + |sep|..];
  }

  lemma JoinFirst(first: string, others: seq<string>, sep: string)
    requires others != []
    ensures Join([first] + others, sep) == first + sep + Join(others, sep)
  {
    assert ([first] + others)[1..] == others;
  }

  lemma {:induction false} JoinUndoesSplit(s: string, sep: string)
    requires sep != ""
    ensures Join(Split(s, sep), sep) == s
    decreases |s|
  {
    var i := IndexOf(s, sep);
    if i >= 0 {
      SplitFound(s, sep);
      JoinUndoesSplit(s[i + |sep|..], sep);
      JoinFirst(s[..i], Split(s[i + |sep|..], sep), sep);
    }
  }

  lemma SlicesOfAppend(a: string, b: string, i: nat, j: nat)
    requires i <= j <= |a|
    ensures (a + b)[..i] == a[..i] && (a + b)[j..] == a[j..] + b
  {
  }

  lemma FirstAndLast(first: string, others: seq<string>)
    requires others != []
    ensures var all := [first] + others;
            all[..|all| - 1] == [first] + others[..|others| - 1] && all[|all| - 1] == others[|others| - 1]
  {
  }

  lemma SplitFoundAppend(a: string, b: string, sep: string)
    requires sep != "" && IndexOf(a, sep) >= 0
    ensures var i := IndexOf(a, sep);
            i + |sep| <= |a| && Split(a + b, sep) == [a[..i]] + Split(a[i + |sep|..] + b, sep)
  {
    var i := IndexOf(a, sep);
    SplitFound(a, sep);
    IndexOfPrefix(a, b, sep);
    SplitFound(a + b, sep);
    SlicesOfAppend(a, b, i, i + |sep|);
  }

  /** `whole` is `parts` with the last piece split once more. */
  predicate Resplit(parts: seq<string>, more: seq<string>, whole: seq<string>) {
    parts != [] && whole == parts[..|parts| - 1] + more
  }

  lemma ResplitOne(s: string, more: seq<string>)
    ensures Resplit([s], more, more)
  {
    assert [s][..0] + more == more;
  }

  lemma ResplitBehind(first: string, parts: seq<string>, more: seq<string>, whole: seq<string>)
    requires Resplit(parts, more, whole)
    ensures Resplit([first] + parts, more, [first] + whole)
  {
    FirstAndLast(first, parts);
    Assoc([first], parts[..|parts| - 1], more);
  }

  lemma {:induction false} SplitResplits(a: string, b: string, sep: string)
    requires sep != ""
    ensures var p := Split(a, sep); Resplit(p, Split(p[|p| - 1] + b, sep), Split(a + b, sep))
    decreases |a|
  {
    var i := IndexOf(a, sep);
    if i < 0 {
      ResplitOne(a, Split(a + b, sep));
    } else {
      SplitFound(a, sep);
      var (rest, q) := (a[i + |sep|..], Split(a[i + |sep|..], sep));
      SplitResplits(rest, b, sep);
      SplitFoundAppend(a, b, sep);
      FirstAndLast(a[..i], q);
      ResplitBehind(a[..i], q, Split(q[|q| - 1] + b, sep), Split(rest + b, sep));
    }
  }

  /** Only the last piece of a split can still change when text is appended. */
  lemma SplitAppend(a: string, b: string, sep: string)
    requires sep != ""
    ensures var p := Split(a, sep);
            Split(a + b, sep) == p[..|p| - 1] + Split(p[|p| - 1] + b, sep)
  {
    SplitResplits(a, b, sep);
  }

  lemma OccursChar(s: string, c: char, i: nat)
    requires OccursAt(s, [c], i)
    ensures c in s
  {
    assert s[i + 0] == [c][0];
  }

  /** A character that is not there is not found. */
  lemma CharAbsent(s: string, c: char)
    requires c !in s
    ensures IndexOf(s, [c]) == -1
  {
    var i := IndexOf(s, [c]);
    if i >= 0 { OccursChar(s, c, i); }
  }

  lemma CharFirst(a: string, c: char, b: string)
    requires c !in a
    ensures IndexOf(a + [c] + b, [c]) == |a|
  {
    var s := a + [c] + b;
    assert OccursAt(s, [c], |a|);
    IndexOfIsFirst(s, [c], |a|);
    var i := IndexOf(s, [c]);
    assert s[i + 0] == [c][0];
    assert forall k :: 0 <= k < |a| ==> s[k] == a[k];
  }

  /** Splitting on one character undoes joining pieces free of it. */
  lemma {:induction false} SplitUndoesJoin(parts: seq<string>, c: char)
    requires |parts| > 0
    requires forall p :: p in parts ==> c !in p
    ensures Split(Join(parts, [c]), [c]) == parts
  {
    if |parts| == 1 {
      CharAbsent(parts[0], c);
    } else {
      SplitUndoesJoin(parts[1..], c);
      var tail := Join(parts[1..], [c]);
      CharFirst(parts[0], c, tail);
      SplitFound(parts[0] + [c] + tail, [c]);
      assert (parts[0] + [c] + tail)[..|parts[0]|] == parts[0];
      assert (parts[0] + [c] + tail)[|parts[0]| + 1..] == tail;
    }
  }

  /** The pieces of a split at one character are free of it. */
  lemma {:induction false} SplitIsFree(s: string, c: char)
    ensures forall p :: p in Split(s, [c]) ==> c !in p
    decreases |s|
  {
    var i := IndexOf(s, [c]);
    NotBeforeFirst(s, c);
    if i >= 0 { SplitIsFree(s[i + 1..], c); }
  }

  lemma NotBeforeFirst(s: string, c: char)
    ensures var i := IndexOf(s, [c]); if i < 0 then c !in s else i < |s| && s[i] == c && c !in s[..i]
  {
    forall k | 0 <= k < |s| && s[k] == c ensures 0 <= IndexOf(s, [c]) <= k {
      assert OccursAt(s, [c], k);
      IndexOfIsFirst(s, [c], k);
    }
    var i := IndexOf(s, [c]);
    if i >= 0 { assert s[i + 0] == [c][0]; }
  }

  /** Splitting at a character is piecewise. */
  lemma {:induction false} SplitConcat(a: string, c: char, b: string)
    ensures Split(a + [c] + b, [c]) == Split(a, [c]) + Split(b, [c])
    decreases |a|
  {
    var s := a + [c] + b;
    var i := IndexOf(a, [c]);
    if i < 0 {
      NotBeforeFirst(a, c);
      CharFirst(a, c, b);
      assert s[..|a|] == a && s[|a| + 1..] == b;
    } else {
      Assoc(a, [c], b);
      IndexOfPrefix(a, [c] + b, [c]);
      SplitConcat(a[i + 1..], c, b);
      assert s[..i] == a[..i] && s[i + 1..] == a[i + 1..] + [c] + b;
    }
  }

  lemma SplitOne(s: string, c: char)
    ensures |Split(s, [c])| == 1 <==> c !in s
    ensures c !in s ==> Split(s, [c]) == [s]
  {
    NotBeforeFirst(s, c);
  }

  /** Joined pieces fall into at least as many pieces, and into more if one holds the separator. */
  lemma {:induction false} SplitOfJoin(parts: seq<string>, c: char)
    requires |parts| > 0
    ensures |Split(Join(parts, [c]), [c])| >= |parts|
    ensures |Split(Join(parts, [c]), [c])| == |parts| <==> forall p :: p in parts ==> c !in p
  {
    SplitOne(parts[0], c);
    if |parts| > 1 {
      SplitOfJoin(parts[1..], c);
      SplitConcat(parts[0], c, Join(parts[1..], [c]));
      assert forall p :: p in parts <==> p == parts[0] || p in parts[1..];
    }
  }

  /** Joined pieces can be split again exactly when none of them holds the separator. */
  lemma SplitUndoesJoinExactly(parts: seq<string>, c: char)
    requires |parts| > 0
    ensures Split(Join(parts, [c]), [c]) == parts <==> forall p :: p in parts ==> c !in p
  {
    SplitIsFree(Join(parts, [c]), c);
    if forall p :: p in parts ==> c !in p { SplitUndoesJoin(parts, c); }
  }

  predicate IsSuffix(end: string, s: string) {
    |end| <= |s| && end == s[|s| - |end|..]
  }

  lemma SuffixOfSlice(end: string, s: string, k: nat)
    requires k <= |s| && IsSuffix(end, s[k..])
    ensures IsSuffix(end, s)
  {
  }

  /** The last piece of a split is a suffix of the text. */
  lemma {:induction false} LastPieceIsSuffix(s: string, sep: string)
    requires sep != ""
    ensures var p := Split(s, sep); IsSuffix(p[|p| - 1], s)
    decreases |s|
  {
    var i := IndexOf(s, sep);
    if i >= 0 {
      SplitFound(s, sep);
      var q := Split(s[i + |sep|..], sep);
      LastPieceIsSuffix(s[i + |sep|..], sep);
      FirstAndLast(s[..i], q);
      SuffixOfSlice(q[|q| - 1], s, i + |sep|);
    }
  }

  lemma {:induction false} FlattenAppend(a: seq<string>, b: seq<string>)
    ensures Flatten(a + b) == Flatten(a) + Flatten(b)
  {
    if b == [] {
      assert a + b == a;
    } else {
      var n := |b| - 1;
      FlattenAppend(a, b[..n]);
      assert (a + b)[..|a + b| - 1] == a + b[..n];
    }
  }
}
