/** The text of a `retry:` value and what it is read as. */
module SseDelay {
  import opened Wrappers
  import opened Text
  import opened SseParser

  predicate AllDigits(s: string) {
    forall i :: 0 <= i < |s| ==> IsDigit(s[i])
  }

  function Digit(n: nat): (c: char)
    requires n < 10
    ensures IsDigit(c)
  {
    ('0' as int + n) as char
  }

  function Decimal(n: nat): string {
    if n < 10 then [Digit(n)] else Decimal(n / 10) + [Digit(n % 10)]
  }

  function IntText(n: int): string {
    if n < 0 then "-" + Decimal(-n) else Decimal(n)
  }

  lemma {:induction false} DecimalIsDigits(n: nat)
    ensures Decimal(n) != "" && AllDigits(Decimal(n))
  {
    if n >= 10 { DecimalIsDigits(n / 10); }
  }

  lemma {:induction false} LeadingDigitsSnoc(s: string, c: char, acc: nat)
    requires AllDigits(s) && IsDigit(c)
    ensures LeadingDigits(s + [c], acc) == LeadingDigits(s, acc) * 10 + (c as int - '0' as int)
  {
    if s == "" {
      assert (s + [c])[1..] == "";
    } else {
      assert (s + [c])[1..] == s[1..] + [c] && (s + [c])[0] == s[0];
      LeadingDigitsSnoc(s[1..], c, acc * 10 + (s[0] as int - '0' as int));
    }
  }

  lemma {:induction false} DecimalValue(n: nat)
    ensures LeadingDigits(Decimal(n), 0) == n
  {
    if n < 10 {
      assert Decimal(n)[1..] == "";
    } else {
      DecimalValue(n / 10);
      DecimalIsDigits(n / 10);
      LeadingDigitsSnoc(Decimal(n / 10), Digit(n % 10), 0);
    }
  }

  lemma DigitIsNoSpace(c: char)
    requires IsDigit(c) || c == '-'
    ensures !IsJsSpace(c) && c != '+' && c != '\n' && c != '\r'
  {
  }

  lemma ParseDigits(s: string, negative: bool)
    requires s != "" && AllDigits(s)
    ensures var value: int := LeadingDigits(s, 0);
            ParseInt(if negative then "-" + s else s) == Some(if negative then -value else value)
  {
    var t := if negative then "-" + s else s;
    assert IsDigit(s[0]);
    DigitIsNoSpace(t[0]);
    assert StripLeft(t) == t;
    if negative { assert t[1..] == s; }
  }

  lemma ParseIntText(n: int)
    ensures ParseInt(IntText(n)) == Some(n)
  {
    var m: nat := if n < 0 then -n else n;
    DecimalIsDigits(m);
    DecimalValue(m);
    ParseDigits(Decimal(m), n < 0);
  }

  predicate StartsWithDigit(s: string) {
    s != "" && IsDigit(s[0])
  }

  lemma {:induction false} LeadingDigitsStop(s: string, rest: string, acc: nat)
    requires AllDigits(s) && !StartsWithDigit(rest)
    ensures LeadingDigits(s + rest, acc) == LeadingDigits(s, acc)
  {
    if s == "" {
      assert s + rest == rest;
    } else {
      assert (s + rest)[1..] == s[1..] + rest && (s + rest)[0] == s[0];
      LeadingDigitsStop(s[1..], rest, acc * 10 + (s[0] as int - '0' as int));
    }
  }

  /** A number is read up to the first character that is no digit, whatever follows, and behind
      either sign. */
  lemma ParseStopsAtText(sign: string, n: nat, rest: string)
    requires sign in ["", "+", "-"] && !StartsWithDigit(rest)
    ensures var value: int := n; ParseInt(sign + (Decimal(n) + rest)) == Some(if sign == "-" then -value else value)
  {
    var body := Decimal(n) + rest;
    var t := sign + body;
    DecimalIsDigits(n);
    DecimalValue(n);
    LeadingDigitsStop(Decimal(n), rest, 0);
    assert IsDigit(body[0]) && body[0] == Decimal(n)[0];
    DigitIsNoSpace(body[0]);
    assert t[0] == (if sign == "" then body[0] else sign[0]) && !IsJsSpace(t[0]);
    assert t[|sign|..] == body;
  }

  /** Without a digit behind the sign, if there is one, there is no number. */
  lemma NoDigitNoNumber(sign: string, rest: string)
    requires sign in ["+", "-"] && !StartsWithDigit(rest)
    ensures ParseInt(sign + rest).None?
  {
    var t := sign + rest;
    assert t[0] == sign[0] && !IsJsSpace(t[0]) && t[1..] == rest;
  }

  lemma NoDigitNorSign(rest: string)
    requires !StartsWithDigit(rest) && (rest != "" ==> rest[0] !in "+-" && !IsJsSpace(rest[0]))
    ensures ParseInt(rest).None?
  {
  }

  /** A number's text is one line that does not start with white space. */
  lemma IntTextIsPlain(n: int)
    ensures IntText(n) != "" && !IsJsSpace(IntText(n)[0]) && '\r' !in IntText(n) && '\n' !in IntText(n)
  {
    var m: nat := if n < 0 then -n else n;
    DecimalIsDigits(m);
    forall i | 0 <= i < |IntText(n)| ensures IsDigit(IntText(n)[i]) || IntText(n)[i] == '-' {
      if n < 0 && i > 0 { assert IntText(n)[i] == Decimal(m)[i - 1]; }
    }
    DigitIsNoSpace(IntText(n)[0]);
  }
}
