/** Which values may be put into a path template, and what goes wrong otherwise. */
module PathSafety {
  import opened Wrappers
  import opened Text
  import opened Percent
  import opened PathSerializer
  import opened PathTemplate

  /** No pattern begins in `a` and ends in `b`. */
  predicate Fits(a: string, b: string) {
    a == "" || b == "" || a[|a| - 1] != '$' || b[0] !in "$&`'"
  }

  lemma InertConcat(a: string, b: string)
    requires Inert(a) && Inert(b) && Fits(a, b)
    ensures Inert(a + b)
  {
    var s := a + b;
    forall i | 0 <= i < |s| ensures !IsPattern(s, i) {
      if i < |a| { assert !IsPattern(a, i); } else { assert !IsPattern(b, i - |a|); }
    }
  }

  /** A character that neither begins nor ends a pattern. */
  predicate IsNeutral(c: char) {
    c !in "$&`'{}"
  }

  lemma OneInert(c: char)
    requires IsNeutral(c)
    ensures Inert([c])
  {
  }

  lemma DollarFree(s: string)
    requires '$' !in s
    ensures NoPattern(s)
  {
    forall i | 0 <= i < |s| ensures !IsPattern(s, i) { assert s[i] in s; }
  }

  lemma EncodedIsInert(s: string)
    ensures Inert(EncodeURIComponent(s)) && '$' !in EncodeURIComponent(s)
  {
    EncodedAlphabet(s);
    DollarFree(EncodeURIComponent(s));
  }

  /** A name, a neutral character and a value. */
  lemma InertPair(name: string, c: char, value: string)
    requires Inert(name) && IsNeutral(c) && Inert(value)
    ensures Inert(name + [c] + value)
  {
    OneInert(c);
    InertConcat(name, [c]);
    InertConcat(name + [c], value);
  }

  lemma LeadInert(c: char, value: string)
    requires IsNeutral(c) && Inert(value)
    ensures Inert([c] + value)
  {
    OneInert(c);
    InertConcat([c], value);
  }

  predicate AllTextsInert(parts: seq<string>) {
    forall i :: 0 <= i < |parts| ==> Inert(parts[i])
  }

  lemma {:induction false} JoinedInert(parts: seq<string>, c: char)
    requires AllTextsInert(parts) && IsNeutral(c)
    ensures Inert(Join(parts, [c]))
  {
    if |parts| > 1 {
      JoinedInert(parts[1..], c);
      InertPair(parts[0], c, Join(parts[1..], [c]));
    }
  }

  lemma {:induction false} WrittenInert(items: seq<Value>)
    ensures AllTextsInert(WrittenAll(false, items))
  {
    if items != [] {
      WrittenInert(items[..|items| - 1]);
      EncodedIsInert(ToText(items[|items| - 1]));
    }
  }

  predicate NamesInert(pairs: seq<(string, Value)>) {
    forall i :: 0 <= i < |pairs| ==> Inert(pairs[i].0)
  }

  lemma PrimitiveInert(name: string, value: Value)
    requires Inert(name) && SerializePrimitive(false, name, value).Ok?
    ensures Inert(SerializePrimitive(false, name, value).value)
  {
    if value.Scalar? {
      EncodedIsInert(value.text);
      InertPair(name, '=', EncodeURIComponent(value.text));
    }
  }

  lemma {:induction false} PrimitivesInert(pairs: seq<(string, Value)>)
    requires NamesInert(pairs) && SerializePrimitives(false, pairs).Ok?
    ensures AllTextsInert(SerializePrimitives(false, pairs).value)
  {
    if pairs != [] {
      PrimitivesInert(pairs[..|pairs| - 1]);
      PrimitiveInert(pairs[|pairs| - 1].0, pairs[|pairs| - 1].1);
    }
  }

  lemma {:induction false} FlattenedInert(entries: seq<(string, Value)>)
    requires NamesInert(entries)
    ensures AllTextsInert(Flattened(false, entries))
  {
    if entries != [] {
      FlattenedInert(entries[..|entries| - 1]);
      EncodedIsInert(ToText(entries[|entries| - 1].1));
    }
  }

  /** `;name=value` */
  lemma PrefixedInert(name: string, value: string)
    requires Inert(name) && Inert(value)
    ensures Inert(";" + name + "=" + value)
  {
    LeadInert(';', name);
    InertPair(";" + name, '=', value);
  }

  lemma ArrayInert(explode: bool, name: string, style: Style, items: seq<Value>)
    requires style in {Label, Matrix, Simple} && (style == Matrix ==> Inert(name))
    requires SerializeArray(false, explode, name, style, items).Ok?
    ensures Inert(SerializeArray(false, explode, name, style, items).value)
  {
    if explode && style == Matrix {
      PrimitivesInert(Named(name, items));
      JoinedInert(SerializePrimitives(false, Named(name, items)).value, ';');
      LeadInert(';', Join(SerializePrimitives(false, Named(name, items)).value, ";"));
    } else {
      WrittenInert(items);
      var c := if explode && style == Label then '.' else ',';
      var joined := Join(WrittenAll(false, items), [c]);
      JoinedInert(WrittenAll(false, items), c);
      assert "" + joined == joined;
      LeadInert('.', joined);
      if style == Matrix { PrefixedInert(name, joined); }
    }
  }

  lemma ObjectInert(explode: bool, name: string, style: Style, entries: seq<(string, Value)>)
    requires style in {Label, Matrix, Simple} && (style == Matrix ==> Inert(name)) && NamesInert(entries)
    requires SerializeObject(false, explode, name, style, entries).Ok?
    ensures Inert(SerializeObject(false, explode, name, style, entries).value)
  {
    if explode {
      var c := if style == Label then '.' else if style == Matrix then ';' else ',';
      var parts := SerializePrimitives(false, EntryNames(name, style, entries)).value;
      PrimitivesInert(EntryNames(name, style, entries));
      JoinedInert(parts, c);
      assert "" + Join(parts, [c]) == Join(parts, [c]);
      LeadInert(c, Join(parts, [c]));
    } else {
      var joined := Join(Flattened(false, entries), ",");
      FlattenedInert(entries);
      JoinedInert(Flattened(false, entries), ',');
      LeadInert('.', joined);
      if style == Matrix { PrefixedInert(name, joined); }
    }
  }

  /** What a caller can check: only names and keys that are written unencoded matter. */
  predicate SafeArgument(path: map<string, Value>, inner: string) {
    var p := ParsePlaceholder(inner);
    && (p.style == Matrix ==> Inert(p.name))
    && (p.name in path ==>
          && (path[p.name].Record? ==> NamesInert(path[p.name].entries))
          && (path[p.name].Date? ==> Inert(path[p.name].iso)))
  }

  /** A replacement is inert whatever the scalar or array values contain. */
  lemma SafeArgumentInert(path: map<string, Value>, inner: string)
    requires SafeArgument(path, inner)
    ensures Fill(path)(inner).Some? ==> Inert(Fill(path)(inner).value)
  {
    var p := ParsePlaceholder(inner);
    if p.name in path && Replacement(path, inner).Ok? {
      match path[p.name]
      case Scalar(text) =>
        EncodedIsInert(text);
        EncodedIsInert("." + text);
      if p.style == Matrix { PrefixedInert(p.name, EncodeURIComponent(text)); }
      case List(items) => ArrayInert(p.explode, p.name, p.style, items);
      case Record(entries) => ObjectInert(p.explode, p.name, p.style, entries);
      case _ =>
    }
  }

  /** The theorem in terms of the caller's arguments. */
  lemma SafeArgumentsExpandSimultaneously(tokens: seq<Token>, path: map<string, Value>)
    requires WellFormed(tokens) && NoneThrows(tokens, path)
    requires forall i :: 0 <= i < |tokens| && tokens[i].Hole? ==> SafeArgument(path, tokens[i].inner)
    ensures Expand(Print(tokens), path) == Ok(Simultaneous(tokens, Fill(path)))
  {
    forall i | 0 <= i < |tokens| && tokens[i].Hole? && Fill(path)(tokens[i].inner).Some?
      ensures Inert(Fill(path)(tokens[i].inner).value)
    {
      SafeArgumentInert(path, tokens[i].inner);
    }
    SequentialIsSimultaneous(tokens, path);
  }

  // ----- what goes wrong otherwise -----

  predicate Replaces(path: map<string, Value>, m: string, repl: string) {
    |m| >= 2 && Replacement(path, m[1..|m| - 1]) == Ok(Some(repl))
  }

  lemma HandledReplaces(path: map<string, Value>, url: string, m: string, repl: string)
    requires Replaces(path, m, repl)
    ensures Handled(path, url, m) == Ok(ReplaceFirst(url, m, repl))
  {
  }

  lemma ExpandOne(template: string, path: map<string, Value>, m: string, repl: string)
    requires Matches(template) == [m] && Replaces(path, m, repl)
    ensures Expand(template, path) == Ok(ReplaceFirst(template, m, repl))
  {
    MatchesAreBraced(template);
    HandledNext(template, [m], 0, path, template);
    HandledReplaces(path, template, m, repl);
  }

  lemma ExpandTwo(template: string, path: map<string, Value>, m: string, once: string, m': string)
    requires Matches(template) == [m, m'] && |m| >= 2 && |m'| >= 2
    requires Handled(path, template, m) == Ok(once)
    ensures Expand(template, path) == Handled(path, once, m')
  {
    MatchesAreBraced(template);
    HandledNext(template, [m, m'], 0, path, template);
    HandledNext(template, [m, m'], 1, path, once);
  }

  lemma ReplaceWhole(t: string, repl: string)
    ensures ReplaceFirst(t, t, repl) == Substitute(repl, "", t, "")
  {
    assert OccursAt(t, t, 0);
    IndexOfIsFirst(t, t, 0);
    assert t[..0] == "" && t[|t|..] == "";
    var inserted := Substitute(repl, "", t, "");
    assert "" + inserted + "" == inserted;
  }

  lemma OneMatch(inner: string)
    requires BraceFree(inner) && inner != ""
    ensures Matches(Braced(inner)) == [Braced(inner)]
  {
    MatchesHole(inner, "");
    assert Braced(inner) + "" == Braced(inner);
  }

  /** A placeholder in matrix style writes its name unencoded. */
  lemma MatrixReplacement(path: map<string, Value>, name: string)
    requires name in path && path[name].Scalar? && name != "" && name[|name| - 1] != '*'
    ensures Replacement(path, ";" + name) == Ok(Some(";" + name + "=" + EncodeURIComponent(path[name].text)))
  {
    var inner := ";" + name;
    assert inner[0] == ';' && inner[1..] == name && inner[|inner| - 1] == name[|name| - 1];
    assert ParsePlaceholder(inner) == Placeholder(false, Matrix, name);
  }

  /** A brace-free replacement comes out unchanged where it is the whole text exactly when it
      holds no pattern: `$&` brings the placeholder's braces back, and the others shorten it. */
  lemma {:induction false} PatternsShow(repl: string, matched: string)
    requires BraceFree(repl) && '{' in matched
    ensures var s := Substitute(repl, "", matched, "");
            '{' in s || |s| < |repl| || (|s| == |repl| && NoPattern(repl))
  {
    if repl != "" {
      PatternInTail(repl);
      assert forall k {:trigger repl[k]} :: 0 <= k < |repl| ==> !IsBrace(repl[k]) by {
        forall k | 0 <= k < |repl| ensures !IsBrace(repl[k]) { assert repl[k] in repl; }
      }
      PatternsShow(repl[if IsPattern(repl, 0) then 2 else 1..], matched);
    }
  }

  lemma PatternsExactly(repl: string, x: string)
    requires BraceFree(repl)
    ensures Substitute(repl, "", Braced(x), "") == repl <==> NoPattern(repl)
  {
    assert Braced(x)[0] == '{';
    PatternsShow(repl, Braced(x));
    if NoPattern(repl) { SubstituteInert(repl, "", Braced(x), ""); }
    assert '{' in repl ==> !IsBrace('{');
  }

  lemma NoPatternWithin(name: string, value: string)
    requires '$' !in value
    ensures NoPattern(";" + name + "=" + value) <==> NoPattern(name)
  {
    var s := ";" + name + "=" + value;
    assert forall i :: 0 <= i < |name| ==> s[i + 1] == name[i];
    assert s[|name| + 1] == '=';
    forall i | 0 <= i < |value| ensures s[|name| + 2 + i] == value[i] && value[i] != '$' { assert value[i] in value; }
    if NoPattern(name) {
      forall i | 0 <= i < |s| ensures !IsPattern(s, i) {
        if 1 <= i <= |name| { assert !IsPattern(name, i - 1); }
      }
    }
    if NoPattern(s) {
      forall i | 0 <= i < |name| ensures !IsPattern(name, i) { assert !IsPattern(s, i + 1); }
    }
  }

  /** The matrix style prints a name unencoded: for every brace-free name, the url is the
      printed parameter exactly when the name holds none of `$$`, `$&`, `` $` `` and `$'`. */
  lemma DollarIsRewritten(path: map<string, Value>, name: string)
    requires BraceFree(name) && name != "" && name[|name| - 1] != '*'
    requires name in path && path[name].Scalar?
    ensures var printed := ";" + name + "=" + EncodeURIComponent(path[name].text);
            && Fill(path)(";" + name) == Some(printed)
            && (Expand(Braced(";" + name), path) == Ok(printed) <==> NoPattern(name))
  {
    var inner := ";" + name;
    var value := EncodeURIComponent(path[name].text);
    var repl := inner + "=" + value;
    var t := Braced(inner);
    MatrixReplacement(path, name);
    OneMatch(inner);
    assert t[1..|t| - 1] == inner;
    ExpandOne(t, path, t, repl);
    ReplaceWhole(t, repl);
    EncodedIsInert(path[name].text);
    assert BraceFree(repl) by { BraceFreePair(inner, "=" + value); Assoc(inner, "=", value); }
    PatternsExactly(repl, inner);
    NoPatternWithin(name, value);
  }

  lemma BraceFreePair(a: string, b: string)
    requires BraceFree(a) && BraceFree(b)
    ensures BraceFree(a + b)
  {
  }

  // ----- a stray opening brace -----

  /** The template `{x{a}}{y}`. */
  function Stray(x: string, a: string, y: string): seq<Token> {
    [Literal("{" + x), Hole(a), Literal("}"), Hole(y)]
  }

  lemma FirstToken(t: Token, rest: seq<Token>, fill: Filling)
    ensures Print([t] + rest) == (if t.Hole? then Braced(t.inner) else t.text) + Print(rest)
    ensures Simultaneous([t] + rest, fill) ==
            (if t.Hole? then Filled(fill, t.inner) else t.text) + Simultaneous(rest, fill)
  {
    assert ([t] + rest)[1..] == rest;
  }

  lemma StrayTexts(x: string, a: string, y: string, fill: Filling)
    ensures Print(Stray(x, a, y)) == "{" + x + (Braced(a) + ("}" + Braced(y)))
    ensures Simultaneous(Stray(x, a, y), fill) == "{" + x + (Filled(fill, a) + ("}" + Filled(fill, y)))
  {
    var none: seq<Token> := [];
    FirstToken(Hole(y), none, fill);
    FirstToken(Literal("}"), [Hole(y)] + none, fill);
    FirstToken(Hole(a), [Literal("}")] + ([Hole(y)] + none), fill);
    FirstToken(Literal("{" + x), [Hole(a)] + ([Literal("}")] + ([Hole(y)] + none)), fill);
    assert Stray(x, a, y) == [Literal("{" + x)] + ([Hole(a)] + ([Literal("}")] + ([Hole(y)] + none)));
    assert Braced(y) + "" == Braced(y) && Filled(fill, y) + "" == Filled(fill, y);
  }

  lemma MatchesOfStray(x: string, a: string, y: string)
    requires BraceFree(x) && BraceFree(a) && BraceFree(y) && a != "" && y != ""
    ensures Matches("{" + x + (Braced(a) + ("}" + Braced(y)))) == [Braced(a), Braced(y)]
  {
    var rest := "}" + Braced(y);
    var tail := Braced(a) + rest;
    var s := "{" + x + tail;
    assert s[1..] == x + tail;
    RunStops(x, tail);
    MatchesBehindLiteral(x, tail);
    MatchesHole(a, rest);
    assert rest[1..] == Braced(y);
    OneMatch(y);
  }

  /** No `{y}` begins before the placeholder behind the stray brace. */
  lemma NotInStray(x: string, a: string, tail: string, y: string)
    requires BraceFree(x) && BraceFree(y)
    ensures NotBefore("{" + x + (Braced(a) + tail), Braced(y), |x| + 1)
  {
    var s := "{" + x + (Braced(a) + tail);
    assert s[|x| + 1] == '{';
    assert forall i :: 0 <= i < |x| ==> s[i + 1] == x[i] && x[i] in x;
    var m := if |y| < |x| then |y| else |x|;
    CharOfHole(y, "", m + 1);
    assert Braced(y) + "" == Braced(y);
    forall k: nat | k < |x| + 1 ensures !OccursAt(s, Braced(y), k) {
      assert Braced(y)[0] == '{' && Braced(y)[|y| + 1] == '}';
      assert k > 0 ==> s[k + 0] == x[k - 1];
      assert s[0 + (m + 1)] != Braced(y)[m + 1];
    }
  }

  lemma StrayFirstReplaced(x: string, a: string, ra: string, tail: string)
    requires BraceFree(x) && BraceFree(a) && Inert(ra)
    ensures ReplaceFirst("{" + x + (Braced(a) + tail), Braced(a), ra) == "{" + x + (ra + tail)
  {
    NotInStray(x, a, tail, a);
    ReplaceBehind("{" + x, Braced(a) + tail, Braced(a), ra);
    ReplaceHere(a, tail, ra);
  }

  lemma ReplaceAtEnd(y: string, repl: string)
    requires NoPattern(repl)
    ensures ReplaceFirst(Braced(y), Braced(y), repl) == repl
  {
    ReplaceHere(y, "", repl);
    assert Braced(y) + "" == Braced(y) && repl + "" == repl;
  }

  /** With the first placeholder left in place, the second is replaced where it stands. */
  lemma StrayKept(x: string, a: string, y: string, repl: string)
    requires BraceFree(x) && BraceFree(a) && BraceFree(y) && a != y && NoPattern(repl)
    ensures ReplaceFirst("{" + x + (Braced(a) + ("}" + Braced(y))), Braced(y), repl) ==
            "{" + x + (Braced(a) + ("}" + repl))
  {
    var tail := "}" + Braced(y);
    NotInStray(x, a, tail, y);
    ReplaceBehind("{" + x, Braced(a) + tail, Braced(y), repl);
    NotInHole(a, tail, y);
    ReplaceBehind(Braced(a), tail, Braced(y), repl);
    NotInLiteral("}", Braced(y), y);
    ReplaceBehind("}", Braced(y), Braced(y), repl);
    ReplaceAtEnd(y, repl);
  }

  /** With the first one replaced, the stray brace closes around `z`, and the first `{y}` is
      the one that stands there unless `z` is `y`. */
  lemma StrayClosed(z: string, y: string, repl: string)
    requires BraceFree(z) && BraceFree(y) && Inert(repl)
    ensures ReplaceFirst(Braced(z) + Braced(y), Braced(y), repl) == Braced(z) + repl <==> z != y || repl == ""
  {
    if z == y {
      ReplaceHere(y, Braced(y), repl);
      Misplaced(y, repl);
    } else {
      NotInHole(z, Braced(y), y);
      ReplaceBehind(Braced(z), Braced(y), Braced(y), repl);
      ReplaceAtEnd(y, repl);
    }
  }

  lemma Misplaced(y: string, repl: string)
    requires BraceFree(repl)
    ensures repl + Braced(y) == Braced(y) + repl <==> repl == ""
  {
    if repl == "" {
      assert "" + Braced(y) == Braced(y) + "";
    } else {
      assert (repl + Braced(y))[0] == repl[0] && (Braced(y) + repl)[0] == '{' && repl[0] in repl;
    }
  }

  lemma Enclosed(x: string, ra: string, rest: string)
    ensures "{" + x + (ra + ("}" + rest)) == Braced(x + ra) + rest
  {
  }

  lemma HandledFill(path: map<string, Value>, url: string, inner: string)
    requires Replacement(path, inner).Ok?
    ensures Handled(path, url, Braced(inner)) ==
            Ok(if Fill(path)(inner).Some? then ReplaceFirst(url, Braced(inner), Fill(path)(inner).value) else url)
  {
    assert Braced(inner)[1..|Braced(inner)| - 1] == inner;
  }

  lemma StraySecond(path: map<string, Value>, x: string, a: string, y: string)
    requires BraceFree(x) && BraceFree(a) && BraceFree(y)
    requires NoneThrows([Hole(a), Hole(y)], path) && AllInert([Hole(a), Hole(y)], Fill(path))
    requires Fill(path)(y).Some?
    ensures var fill := Fill(path);
            var once := "{" + x + (Filled(fill, a) + ("}" + Braced(y)));
            ReplaceFirst(once, Braced(y), fill(y).value) == "{" + x + (Filled(fill, a) + ("}" + fill(y).value)) <==>
            x + Filled(fill, a) != y || fill(y) == Some("")
  {
    var (fill, both) := (Fill(path), [Hole(a), Hole(y)]);
    assert both[0] == Hole(a) && both[1] == Hole(y);
    var repl := fill(y).value;
    assert Inert(repl);
    if fill(a).None? {
      StrayKept(x, a, y, repl);
      assert (x + Braced(a))[|x|] == '{' && '{' !in y by { assert BraceFree(y); }
    } else {
      var ra := fill(a).value;
      Enclosed(x, ra, Braced(y));
      Enclosed(x, ra, repl);
      BraceFreePair(x, ra);
      StrayClosed(x + ra, y, repl);
    }
  }

  /** A stray opening brace can close around what the placeholder behind it turns into, and so
      form a later placeholder: `{x{a}}{y}` is expanded like one substitution exactly when the
      text so enclosed is not `y`, or nothing is put in for `y`. */
  lemma StrayBraceMisplaces(path: map<string, Value>, x: string, a: string, y: string)
    requires BraceFree(x) && BraceFree(a) && BraceFree(y) && a != "" && y != ""
    requires NoneThrows([Hole(a), Hole(y)], path) && AllInert([Hole(a), Hole(y)], Fill(path))
    ensures var fill := Fill(path);
            Expand(Print(Stray(x, a, y)), path) == Ok(Simultaneous(Stray(x, a, y), fill)) <==>
            x + Filled(fill, a) != y || fill(y).None? || fill(y) == Some("")
  {
    var (fill, both) := (Fill(path), [Hole(a), Hole(y)]);
    assert both[0] == Hole(a) && both[1] == Hole(y);
    var template := "{" + x + (Braced(a) + ("}" + Braced(y)));
    StrayTexts(x, a, y, fill);
    MatchesOfStray(x, a, y);
    HandledFill(path, template, a);
    if fill(a).Some? { StrayFirstReplaced(x, a, fill(a).value, "}" + Braced(y)); }
    var once := "{" + x + (Filled(fill, a) + ("}" + Braced(y)));
    ExpandTwo(template, path, Braced(a), once, Braced(y));
    HandledFill(path, once, y);
    if fill(y).Some? { StraySecond(path, x, a, y); }
  }
}
