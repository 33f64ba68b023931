/** Expansion of `{name}` placeholders: repeated replacement of the first
    occurrence, against one simultaneous substitution. */
module PathTemplate {
  import opened Wrappers
  import opened Text
  import opened Induction
  import opened Percent
  import opened PathSerializer

  predicate IsBrace(c: char) {
    c == '{' || c == '}'
  }

  predicate BraceFree(s: string) {
    forall c :: c in s ==> !IsBrace(c)
  }

  // ----- the placeholders of a template -----

  /** The length of the longest brace-free prefix. */
  function Run(s: string): (n: nat)
    ensures n <= |s|
  {
    if s == "" || IsBrace(s[0]) then 0 else 1 + Run(s[1..])
  }

  /** `url.match(/\{[^{}]+\}/g)`, with no match as the empty list. */
  function Matches(s: string): seq<string>
    decreases |s|
  {
    if s == "" then []
    else if s[0] == '{' && Run(s[1..]) > 0 && Run(s[1..]) + 1 < |s| && s[Run(s[1..]) + 1] == '}' then
      var n := Run(s[1..]) + 2;
      [s[..n]] + Matches(s[n..])
    else Matches(s[1..])
  }

  /** What stands between the braces: an exploded or plain name in one of three styles. */
  datatype Placeholder = Placeholder(explode: bool, style: Style, name: string)

  function ParsePlaceholder(inner: string): Placeholder {
    var explode := inner != "" && inner[|inner| - 1] == '*';
    var name := if explode then inner[..|inner| - 1] else inner;
    if "." <= name then Placeholder(explode, Label, name[1..])
    else if ";" <= name then Placeholder(explode, Matrix, name[1..])
    else Placeholder(explode, Simple, name)
  }

  /** The text for one placeholder; None leaves it in place. */
  function Replacement(path: map<string, Value>, inner: string): Result<Option<string>, Error> {
    var p := ParsePlaceholder(inner);
    var value := if p.name in path then path[p.name] else Undefined;
    match value
    case Undefined => Ok(None)
    case Null => Ok(None)
    case List(items) => Replaced(SerializeArray(false, p.explode, p.name, p.style, items))
    case Record(entries) => Replaced(SerializeObject(false, p.explode, p.name, p.style, entries))
    case Date(_, _) => Ok(Some(SerializeDate(p.name, value, true)))
    case Scalar(text) =>
      if p.style.Matrix? then Ok(Some(";" + p.name + "=" + EncodeURIComponent(text)))
      else Ok(Some(EncodeURIComponent(if p.style.Label? then "." + text else text)))
  }

  function Replaced(r: Result<string, Error>): Result<Option<string>, Error> {
    if r.Err? then Err(r.error) else Ok(Some(r.value))
  }

  // ----- String.prototype.replace with a string pattern -----

  /** The two characters at `i` are one of the patterns that a replacement may hold. */
  predicate IsPattern(s: string, i: nat) {
    i + 1 < |s| && s[i] == '$' && s[i + 1] in "$&`'"
  }

  predicate NoPattern(s: string) {
    forall i :: 0 <= i < |s| ==> !IsPattern(s, i)
  }

  /** The replacement text with its `$` patterns resolved. */
  function Substitute(repl: string, before: string, matched: string, after: string): string {
    if repl == "" then ""
    else if IsPattern(repl, 0) then
      (match repl[1]
       case '$' => "$"
       case '&' => matched
       case '`' => before
       case _ => after) + Substitute(repl[2..], before, matched, after)
    else [repl[0]] + Substitute(repl[1..], before, matched, after)
  }

  function ReplaceFirst(s: string, pat: string, repl: string): string {
    var i := IndexOf(s, pat);
    if i < 0 then s
    else
      var (before, after) := (s[..i], s[i + |pat|..]);
      before + Substitute(repl, before, pat, after) + after
  }

  // ----- the code: one replacement after the other -----

  /** The url after the first `n` matches have been handled. */
  function ExpandUpTo(url: string, matches: seq<string>, n: nat, path: map<string, Value>): Result<string, Error>
    requires n <= |matches| && forall m :: m in matches ==> |m| >= 2
  {
    if n == 0 then Ok(url)
    else
      var before := ExpandUpTo(url, matches, n - 1, path);
      if before.Err? then before
      else
        var m := matches[n - 1];
        var r := Replacement(path, m[1..|m| - 1]);
        if r.Err? then Err(r.error)
        else if r.value.None? then before
        else Ok(ReplaceFirst(before.value, m, r.value.value))
  }

  lemma {:induction false} MatchesAreBraced(s: string)
    ensures forall m :: m in Matches(s) ==> |m| >= 2
    decreases |s|
  {
    if s != "" {
      MatchesAreBraced(s[1..]);
      if s[0] == '{' && Run(s[1..]) > 0 && Run(s[1..]) + 1 < |s| { MatchesAreBraced(s[Run(s[1..]) + 2..]); }
    }
  }

  function Expand(template: string, path: map<string, Value>): Result<string, Error> {
    MatchesAreBraced(template);
    ExpandUpTo(template, Matches(template), |Matches(template)|, path)
  }

  lemma {:induction false} ErrorStays(url: string, matches: seq<string>, n: nat, m: nat, path: map<string, Value>)
    requires n <= m <= |matches| && forall x :: x in matches ==> |x| >= 2
    requires ExpandUpTo(url, matches, n, path).Err?
    ensures ExpandUpTo(url, matches, m, path) == ExpandUpTo(url, matches, n, path)
  {
    if n < m { ErrorStays(url, matches, n, m - 1, path); }
  }

  /** `defaultPathSerializer` */
  method DefaultPathSerializer(path: map<string, Value>, template: string) returns (r: Result<string, Error>)
    ensures r == Expand(template, path)
  {
    var url := template;
    var matches := Matches(template);
    MatchesAreBraced(template);
    for i := 0 to |matches|
      invariant ExpandUpTo(template, matches, i, path) == Ok(url)
    {
      var m := matches[i];
      var replacement := Replacement(path, m[1..|m| - 1]);
      if replacement.Err? {
        ErrorStays(template, matches, i + 1, |matches|, path);
        return Err(replacement.error);
      }
      if replacement.value.Some? {
        url := ReplaceFirst(url, m, replacement.value.value);
      }
    }
    return Ok(url);
  }

  // ----- the specification: all placeholders at once -----

  datatype Token = Literal(text: string) | Hole(inner: string)

  /** Closing braces may stand anywhere in the text. */
  predicate GoodToken(t: Token) {
    match t
    case Literal(text) => '{' !in text
    case Hole(inner) => BraceFree(inner) && inner != ""
  }

  predicate WellFormed(tokens: seq<Token>) {
    forall i :: 0 <= i < |tokens| ==> GoodToken(tokens[i])
  }

  /** What goes into a placeholder; None leaves it in place. */
  type Filling = string -> Option<string>

  function Fill(path: map<string, Value>): Filling {
    (inner: string) =>
      var r := Replacement(path, inner);
      if r.Ok? then r.value else None
  }

  function Braced(inner: string): string {
    "{" + inner + "}"
  }

  function Filled(fill: Filling, inner: string): string {
    if fill(inner).Some? then fill(inner).value else Braced(inner)
  }

  /** The template with its first `n` placeholders filled. */
  function Mixed(tokens: seq<Token>, n: nat, fill: Filling): string {
    if tokens == [] then ""
    else match tokens[0]
      case Literal(text) => text + Mixed(tokens[1..], n, fill)
      case Hole(inner) =>
        if n > 0 then Filled(fill, inner) + Mixed(tokens[1..], n - 1, fill)
        else Braced(inner) + Mixed(tokens[1..], 0, fill)
  }

  function Holes(tokens: seq<Token>): seq<string> {
    if tokens == [] then []
    else (if tokens[0].Hole? then [tokens[0].inner] else []) + Holes(tokens[1..])
  }

  function Print(tokens: seq<Token>): string {
    if tokens == [] then ""
    else (match tokens[0] case Literal(text) => text case Hole(inner) => Braced(inner)) + Print(tokens[1..])
  }

  function BracedAll(inners: seq<string>): seq<string> {
    if inners == [] then [] else [Braced(inners[0])] + BracedAll(inners[1..])
  }

  /** One left-to-right substitution. */
  function Simultaneous(tokens: seq<Token>, fill: Filling): string {
    if tokens == [] then ""
    else
      (match tokens[0] case Literal(text) => text case Hole(inner) => Filled(fill, inner)) +
      Simultaneous(tokens[1..], fill)
  }

  /** Text that, inserted as a replacement, is neither rewritten nor searched again. */
  predicate Inert(s: string) {
    BraceFree(s) && NoPattern(s)
  }

  predicate AllInert(tokens: seq<Token>, fill: Filling) {
    forall i :: 0 <= i < |tokens| && tokens[i].Hole? && fill(tokens[i].inner).Some? ==>
      Inert(fill(tokens[i].inner).value)
  }

  predicate NoneThrows(tokens: seq<Token>, path: map<string, Value>) {
    forall i :: 0 <= i < |tokens| && tokens[i].Hole? ==> Replacement(path, tokens[i].inner).Ok?
  }

  // ----- matching finds exactly the placeholders -----

  lemma {:induction false} RunStops(x: string, rest: string)
    requires BraceFree(x) && rest != "" && IsBrace(rest[0])
    ensures Run(x + rest) == |x|
  {
    if x == "" {
      assert x + rest == rest;
    } else {
      assert (x + rest)[1..] == x[1..] + rest;
      assert x[0] in x;
      RunStops(x[1..], rest);
    }
  }

  lemma {:induction false} MatchesBehindLiteral(t: string, rest: string)
    requires '{' !in t
    ensures Matches(t + rest) == Matches(rest)
  {
    if t == "" {
      assert t + rest == rest;
    } else {
      assert (t + rest)[1..] == t[1..] + rest;
      assert t[0] in t;
      MatchesBehindLiteral(t[1..], rest);
    }
  }

  lemma MatchesHole(x: string, rest: string)
    requires BraceFree(x) && x != ""
    ensures Matches(Braced(x) + rest) == [Braced(x)] + Matches(rest)
  {
    var s := Braced(x) + rest;
    assert s[1..] == x + ("}" + rest);
    RunStops(x, "}" + rest);
    assert s[..|x| + 2] == Braced(x) && s[|x| + 2..] == rest;
  }

  lemma {:induction false} MatchesAreHoles(tokens: seq<Token>)
    requires WellFormed(tokens)
    ensures Matches(Print(tokens)) == BracedAll(Holes(tokens))
  {
    if tokens != [] {
      assert GoodToken(tokens[0]);
      MatchesAreHoles(tokens[1..]);
      FirstHole(tokens);
      assert tokens[0].Hole? ==> Holes(tokens)[1..] == Holes(tokens[1..]);
      match tokens[0]
      case Literal(text) => MatchesBehindLiteral(text, Print(tokens[1..]));
      case Hole(inner) => MatchesHole(inner, Print(tokens[1..]));
    }
  }

  // ----- the first occurrence is the right one -----

  lemma PatternInTail(s: string)
    requires s != ""
    ensures NoPattern(s) <==> !IsPattern(s, 0) && NoPattern(s[1..])
  {
    assert forall i :: 0 <= i < |s| - 1 ==> (IsPattern(s[1..], i) <==> IsPattern(s, i + 1));
    if !IsPattern(s, 0) && NoPattern(s[1..]) {
      forall i | 0 <= i < |s| ensures !IsPattern(s, i) {
        if i > 0 { assert !IsPattern(s[1..], i - 1); }
      }
    }
    if NoPattern(s) {
      forall i | 0 <= i < |s[1..]| ensures !IsPattern(s[1..], i) { assert !IsPattern(s, i + 1); }
    }
  }

  /** A replacement without patterns is inserted as it is, in every template. */
  lemma {:induction false} SubstituteInert(repl: string, before: string, matched: string, after: string)
    requires NoPattern(repl)
    ensures Substitute(repl, before, matched, after) == repl
  {
    if repl != "" {
      PatternInTail(repl);
      SubstituteInert(repl[1..], before, matched, after);
      assert [repl[0]] + repl[1..] == repl;
    }
  }

  predicate NotBefore(s: string, pat: string, n: nat) {
    forall k: nat :: k < n ==> !OccursAt(s, pat, k)
  }

  lemma OccursBehind(t: string, s: string, pat: string, k: nat)
    ensures OccursAt(t + s, pat, |t| + k) <==> OccursAt(s, pat, k)
  {
    if k + |pat| <= |s| {
      assert forall j {:trigger pat[j]} :: 0 <= j < |pat| ==> (t + s)[|t| + k + j] == s[k + j];
    }
  }

  lemma IndexBehind(t: string, s: string, pat: string)
    requires NotBefore(t + s, pat, |t|)
    ensures IndexOf(t + s, pat) == if IndexOf(s, pat) < 0 then -1 else |t| + IndexOf(s, pat)
  {
    var (i, j) := (IndexOf(t + s, pat), IndexOf(s, pat));
    if i >= 0 {
      assert i >= |t|;
      OccursBehind(t, s, pat, i - |t|);
      IndexOfIsFirst(s, pat, i - |t|);
    }
    if j >= 0 {
      OccursBehind(t, s, pat, j);
      IndexOfIsFirst(t + s, pat, |t| + j);
    }
  }

  function Splice(s: string, at: nat, length: nat, repl: string): string
    requires at + length <= |s|
  {
    s[..at] + repl + s[at + length..]
  }

  lemma ReplaceInert(s: string, pat: string, repl: string)
    requires NoPattern(repl)
    ensures var i := IndexOf(s, pat);
            ReplaceFirst(s, pat, repl) == if i < 0 then s else Splice(s, i, |pat|, repl)
  {
    var i := IndexOf(s, pat);
    if i >= 0 { SubstituteInert(repl, s[..i], pat, s[i + |pat|..]); }
  }

  lemma SpliceBehind(t: string, s: string, at: nat, length: nat, repl: string)
    requires at + length <= |s|
    ensures Splice(t + s, |t| + at, length, repl) == t + Splice(s, at, length, repl)
  {
    assert (t + s)[..|t| + at] == t + s[..at];
    assert (t + s)[|t| + at + length..] == s[at + length..];
  }

  lemma ReplaceBehind(t: string, s: string, pat: string, repl: string)
    requires NoPattern(repl) && NotBefore(t + s, pat, |t|)
    ensures ReplaceFirst(t + s, pat, repl) == t + ReplaceFirst(s, pat, repl)
  {
    ReplaceInert(t + s, pat, repl);
    ReplaceInert(s, pat, repl);
    IndexBehind(t, s, pat);
    var at := IndexOf(s, pat);
    if at >= 0 { SpliceBehind(t, s, at, |pat|, repl); }
  }

  lemma NotInLiteral(t: string, s: string, x: string)
    requires '{' !in t
    ensures NotBefore(t + s, Braced(x), |t|)
  {
    forall k: nat | k < |t| ensures !OccursAt(t + s, Braced(x), k) {
      assert t[k] in t;
      assert Braced(x)[0] == '{' && (t + s)[k + 0] == t[k];
    }
  }

  /** The braced character of `Braced(y) + s` at position `k` of the opening hole. */
  lemma CharOfHole(y: string, s: string, k: nat)
    requires BraceFree(y) && k < |y| + 2
    ensures var c := (Braced(y) + s)[k];
            if k == 0 then c == '{' else if k == |y| + 1 then c == '}' else c == y[k - 1] && !IsBrace(c)
  {
    if 0 < k <= |y| { assert y[k - 1] in y; }
  }

  lemma NotInHole(y: string, s: string, x: string)
    requires BraceFree(y) && BraceFree(x) && x != y
    ensures NotBefore(Braced(y) + s, Braced(x), |Braced(y)|)
  {
    forall k: nat | k < |y| + 2 ensures !OccursAt(Braced(y) + s, Braced(x), k) {
      CharOfHole(y, s, k);
      if k == 0 && OccursAt(Braced(y) + s, Braced(x), 0) {
        SameHole(y, s, x);
      } else {
        assert Braced(x)[0] == '{';
      }
    }
  }

  lemma SameHole(y: string, s: string, x: string)
    requires BraceFree(y) && BraceFree(x) && OccursAt(Braced(y) + s, Braced(x), 0)
    ensures x == y
  {
    var (u, v) := (Braced(y) + s, Braced(x));
    assert v + "" == v;
    var m := if |x| < |y| then |x| else |y|;
    CharOfHole(y, s, m + 1);
    CharOfHole(x, "", m + 1);
    assert u[0 + (m + 1)] == v[m + 1];
    assert |x| == |y|;
    forall i | 0 <= i < |x| ensures x[i] == y[i] {
      assert u[0 + (i + 1)] == v[i + 1];
    }
  }

  // ----- sequential is simultaneous -----

  lemma ReplaceHere(x: string, rest: string, repl: string)
    requires NoPattern(repl)
    ensures ReplaceFirst(Braced(x) + rest, Braced(x), repl) == repl + rest
  {
    var s := Braced(x) + rest;
    assert OccursAt(s, Braced(x), 0);
    IndexOfIsFirst(s, Braced(x), 0);
    assert s[..0] == "" && s[|Braced(x)|..] == rest;
    SubstituteInert(repl, "", Braced(x), rest);
  }

  lemma FirstHole(tokens: seq<Token>)
    requires tokens != []
    ensures Holes(tokens) == if tokens[0].Hole? then [tokens[0].inner] + Holes(tokens[1..]) else Holes(tokens[1..])
  {
  }

  lemma {:induction false} HoleIsToken(tokens: seq<Token>, n: nat)
    requires WellFormed(tokens) && n < |Holes(tokens)|
    ensures BraceFree(Holes(tokens)[n])
    ensures Hole(Holes(tokens)[n]) in tokens
  {
    assert GoodToken(tokens[0]);
    var k := if tokens[0].Hole? then 1 else 0;
    if n >= k { HoleIsToken(tokens[1..], n - k); }
  }

  /** Replacing the first occurrence of the n-th placeholder replaces that placeholder:
      equal ones before it are gone, and nothing inserted so far contains a brace. */
  lemma {:induction false} ReplaceNth(tokens: seq<Token>, n: nat, fill: Filling, x: string, repl: string)
    requires WellFormed(tokens) && AllInert(tokens, fill)
    requires n < |Holes(tokens)| && Holes(tokens)[n] == x && fill(x) == Some(repl)
    ensures ReplaceFirst(Mixed(tokens, n, fill), Braced(x), repl) == Mixed(tokens, n + 1, fill)
  {
    var (t, rest) := (tokens[0], tokens[1..]);
    HoleIsToken(tokens, n);
    assert GoodToken(t) && Inert(repl);
    FirstHole(tokens);
    if t.Literal? {
      ReplaceNth(rest, n, fill, x, repl);
      NotInLiteral(t.text, Mixed(rest, n, fill), x);
      ReplaceBehind(t.text, Mixed(rest, n, fill), Braced(x), repl);
    } else if n == 0 {
      MixedStart(rest, fill);
      ReplaceHere(x, Mixed(rest, 0, fill), repl);
    } else {
      ReplaceNth(rest, n - 1, fill, x, repl);
      FilledHole(t.inner, Mixed(rest, n - 1, fill), fill, x, repl);
    }
  }

  lemma FilledHole(y: string, tail: string, fill: Filling, x: string, repl: string)
    requires BraceFree(y) && BraceFree(x) && Inert(repl)
    requires fill(x) == Some(repl) && (fill(y).Some? ==> Inert(fill(y).value))
    ensures ReplaceFirst(Filled(fill, y) + tail, Braced(x), repl) ==
            Filled(fill, y) + ReplaceFirst(tail, Braced(x), repl)
  {
    if fill(y).Some? {
      NotInLiteral(fill(y).value, tail, x);
    } else {
      NotInHole(y, tail, x);
    }
    ReplaceBehind(Filled(fill, y), tail, Braced(x), repl);
  }

  lemma {:induction false} SkipNth(tokens: seq<Token>, n: nat, fill: Filling)
    requires n < |Holes(tokens)| && fill(Holes(tokens)[n]).None?
    ensures Mixed(tokens, n + 1, fill) == Mixed(tokens, n, fill)
  {
    if tokens[0].Literal? {
      SkipNth(tokens[1..], n, fill);
    } else if n > 0 {
      SkipNth(tokens[1..], n - 1, fill);
    }
  }

  lemma {:induction false} BracedAt(inners: seq<string>, n: nat)
    requires n < |inners|
    ensures n < |BracedAll(inners)| && BracedAll(inners)[n] == Braced(inners[n])
  {
    if n > 0 { BracedAt(inners[1..], n - 1); }
  }

  lemma {:induction false} BracedLength(inners: seq<string>)
    ensures |BracedAll(inners)| == |inners|
  {
    if inners != [] { BracedLength(inners[1..]); }
  }

  lemma {:induction false} MixedStart(tokens: seq<Token>, fill: Filling)
    ensures Mixed(tokens, 0, fill) == Print(tokens)
  {
    if tokens != [] { MixedStart(tokens[1..], fill); }
  }

  lemma {:induction false} MixedEnd(tokens: seq<Token>, fill: Filling)
    ensures Mixed(tokens, |Holes(tokens)|, fill) == Simultaneous(tokens, fill)
  {
    if tokens != [] {
      MixedEnd(tokens[1..], fill);
      FirstHole(tokens);
    }
  }

  lemma NextExpansion(tokens: seq<Token>, n: nat, path: map<string, Value>)
    requires WellFormed(tokens) && AllInert(tokens, Fill(path)) && NoneThrows(tokens, path) && n < |Holes(tokens)|
    ensures var m := Braced(Holes(tokens)[n]);
            var r := Replacement(path, m[1..|m| - 1]);
            && r.Ok?
            && Mixed(tokens, n + 1, Fill(path)) ==
               if r.value.None? then Mixed(tokens, n, Fill(path))
               else ReplaceFirst(Mixed(tokens, n, Fill(path)), m, r.value.value)
  {
    var x := Holes(tokens)[n];
    HoleIsToken(tokens, n);
    assert Braced(x)[1..|Braced(x)| - 1] == x;
    assert Replacement(path, Hole(x).inner).Ok?;
    var r := Fill(path)(x);
    if r.Some? {
      ReplaceNth(tokens, n, Fill(path), x, r.value);
    } else {
      SkipNth(tokens, n, Fill(path));
    }
  }

  /** The url after handling one match. */
  function Handled(path: map<string, Value>, url: string, m: string): Result<string, Error>
    requires |m| >= 2
  {
    var r := Replacement(path, m[1..|m| - 1]);
    if r.Err? then Err(r.error) else if r.value.None? then Ok(url) else Ok(ReplaceFirst(url, m, r.value.value))
  }

  lemma HandledNext(url: string, matches: seq<string>, n: nat, path: map<string, Value>, before: string)
    requires n < |matches| && forall m :: m in matches ==> |m| >= 2
    requires ExpandUpTo(url, matches, n, path) == Ok(before)
    ensures ExpandUpTo(url, matches, n + 1, path) == Handled(path, before, matches[n])
  {
  }

  lemma HandledMixed(tokens: seq<Token>, n: nat, path: map<string, Value>)
    requires WellFormed(tokens) && AllInert(tokens, Fill(path)) && NoneThrows(tokens, path) && n < |Holes(tokens)|
    ensures Handled(path, Mixed(tokens, n, Fill(path)), Braced(Holes(tokens)[n])) ==
            Ok(Mixed(tokens, n + 1, Fill(path)))
  {
    NextExpansion(tokens, n, path);
  }

  /** After `n` matches the url is the template with its first `n` placeholders filled. */
  ghost predicate InStep(url: string, tokens: seq<Token>, matches: seq<string>, path: map<string, Value>, n: nat) {
    && (forall m :: m in matches ==> |m| >= 2)
    && n <= |matches| && ExpandUpTo(url, matches, n, path) == Ok(Mixed(tokens, n, Fill(path)))
  }

  lemma StaysInStep(url: string, tokens: seq<Token>, matches: seq<string>, path: map<string, Value>, n: nat)
    requires WellFormed(tokens) && AllInert(tokens, Fill(path)) && NoneThrows(tokens, path)
    requires forall m :: m in matches ==> |m| >= 2
    requires n < |Holes(tokens)| == |matches| && matches[n] == Braced(Holes(tokens)[n])
    requires InStep(url, tokens, matches, path, n)
    ensures InStep(url, tokens, matches, path, n + 1)
  {
    HandledNext(url, matches, n, path, Mixed(tokens, n, Fill(path)));
    HandledMixed(tokens, n, path);
  }

  lemma StartsInStep(tokens: seq<Token>, matches: seq<string>, path: map<string, Value>)
    requires forall m :: m in matches ==> |m| >= 2
    ensures InStep(Print(tokens), tokens, matches, path, 0)
  {
    MixedStart(tokens, Fill(path));
  }

  lemma ExpandsInStep(tokens: seq<Token>, matches: seq<string>, n: nat, path: map<string, Value>)
    requires WellFormed(tokens) && AllInert(tokens, Fill(path)) && NoneThrows(tokens, path)
    requires n <= |Holes(tokens)| == |matches|
    requires forall i :: 0 <= i < |matches| ==> matches[i] == Braced(Holes(tokens)[i])
    requires forall m :: m in matches ==> |m| >= 2
    ensures InStep(Print(tokens), tokens, matches, path, n)
  {
    var url := Print(tokens);
    StartsInStep(tokens, matches, path);
    forall k: nat | k < |matches| && InStep(url, tokens, matches, path, k)
      ensures InStep(url, tokens, matches, path, k + 1)
    {
      StaysInStep(url, tokens, matches, path, k);
    }
    Climb((k: nat) => InStep(url, tokens, matches, path, k), |matches|, n);
  }

  /** Replacing first occurrences one after the other is one simultaneous substitution,
      for repeated and for skipped placeholders alike. */
  lemma SequentialIsSimultaneous(tokens: seq<Token>, path: map<string, Value>)
    requires WellFormed(tokens) && AllInert(tokens, Fill(path)) && NoneThrows(tokens, path)
    ensures Expand(Print(tokens), path) == Ok(Simultaneous(tokens, Fill(path)))
  {
    MatchesAreHoles(tokens);
    MatchesAreBraced(Print(tokens));
    BracedLength(Holes(tokens));
    forall i | 0 <= i < |Holes(tokens)| ensures Matches(Print(tokens))[i] == Braced(Holes(tokens)[i]) {
      BracedAt(Holes(tokens), i);
    }
    ExpandsInStep(tokens, Matches(Print(tokens)), |Holes(tokens)|, path);
    MixedEnd(tokens, Fill(path));
  }
}
