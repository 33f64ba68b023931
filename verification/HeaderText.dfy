/** The normalisation of a header value: white space at its ends is removed. */
module HeaderText {
  predicate IsHttpSpace(c: char) {
    c in "\t\n\r "
  }

  function TrimLeft(s: string): string {
    if s != "" && IsHttpSpace(s[0]) then TrimLeft(s[1..]) else s
  }

  function TrimRight(s: string): string {
    if s != "" && IsHttpSpace(s[|s| - 1]) then TrimRight(s[..|s| - 1]) else s
  }

  /** How a value is normalised before it is stored. */
  function Trim(s: string): string {
    TrimRight(TrimLeft(s))
  }

  /** Whether `headers.set` takes the value; it throws a TypeError otherwise. Every character
      must fit a byte, and what is left after normalisation must hold no NUL and no line end. */
  predicate IsHeaderValue(s: string) {
    && (forall i :: 0 <= i < |s| ==> s[i] as int < 0x100)
    && (var t := Trim(s); forall i :: 0 <= i < |t| ==> t[i] !in "\0\n\r")
  }

  lemma {:induction false} TrimLeftSuffix(s: string)
    ensures |TrimLeft(s)| <= |s| && (|TrimLeft(s)| == |s| ==> TrimLeft(s) == s)
    ensures TrimLeft(s) == s <==> s == "" || !IsHttpSpace(s[0])
    ensures TrimLeft(s) != "" ==> !IsHttpSpace(TrimLeft(s)[0])
  {
    if s != "" { TrimLeftSuffix(s[1..]); }
  }

  lemma {:induction false} TrimRightPrefix(s: string)
    ensures TrimRight(s) <= s
    ensures TrimRight(s) == s <==> s == "" || !IsHttpSpace(s[|s| - 1])
    ensures TrimRight(s) != "" ==> !IsHttpSpace(TrimRight(s)[|TrimRight(s)| - 1])
  {
    if s != "" { TrimRightPrefix(s[..|s| - 1]); }
  }

  predicate IsTrimmed(s: string) {
    s == "" || (!IsHttpSpace(s[0]) && !IsHttpSpace(s[|s| - 1]))
  }

  lemma TrimExactly(s: string)
    ensures IsTrimmed(Trim(s))
    ensures Trim(s) == s <==> IsTrimmed(s)
  {
    TrimLeftSuffix(s);
    TrimRightPrefix(TrimLeft(s));
  }

  lemma {:induction false} TrimLeftKeeps(s: string, c: char)
    requires !IsHttpSpace(c)
    ensures c in TrimLeft(s) <==> c in s
  {
    if s != "" { TrimLeftKeeps(s[1..], c); }
  }

  lemma {:induction false} TrimRightKeeps(s: string, c: char)
    requires !IsHttpSpace(c)
    ensures c in TrimRight(s) <==> c in s
  {
    if s != "" {
      TrimRightKeeps(s[..|s| - 1], c);
      assert s == s[..|s| - 1] + [s[|s| - 1]];
    }
  }

  lemma {:induction false} TrimLeftAdds(s: string, c: char)
    requires c !in s
    ensures c !in TrimLeft(s)
  {
    if s != "" { TrimLeftAdds(s[1..], c); }
  }

  lemma TrimAddsNothing(s: string, c: char)
    requires c !in s
    ensures c !in Trim(s)
  {
    TrimLeftAdds(s, c);
    TrimRightPrefix(TrimLeft(s));
    assert forall i :: 0 <= i < |Trim(s)| ==> Trim(s)[i] == TrimLeft(s)[i];
  }

  /** A text without line ends is a header value exactly when all its characters lie between
      U+0001 and U+00FF. */
  lemma HeaderValueExactly(s: string)
    requires '\n' !in s && '\r' !in s
    ensures IsHeaderValue(s) <==> forall c :: c in s ==> 1 <= c as int <= 255
  {
    TrimAddsNothing(s, '\n');
    TrimAddsNothing(s, '\r');
    TrimLeftKeeps(s, '\0');
    TrimRightKeeps(TrimLeft(s), '\0');
    var t := Trim(s);
    assert forall c :: c in "\0\n\r" <==> c == '\0' || c == '\n' || c == '\r';
    assert (forall i :: 0 <= i < |t| ==> t[i] !in "\0\n\r") <==> '\0' !in t;
    if forall c :: c in s ==> c as int <= 255 {
      forall i | 0 <= i < |s| ensures s[i] as int < 0x100 { assert s[i] in s; }
    }
    assert '\0' !in s <==> forall c :: c in s ==> 1 <= c as int;
  }
}
