/** Percent-encoding (section 2.1 of RFC 3986) over UTF-8, as the client's
    `encodeURIComponent` writes it and the server's `url.PathUnescape` reads it.
    A byte string is written as a string of characters below U+0100. */
module Percent {
  import opened Wrappers
  import opened Text

  function Byte(n: nat): (c: char)
    requires n < 256
    ensures c as int == n
  {
    n as char
  }

  function Utf8Char(c: char): string {
    var u := c as int;
    if u < 0x80 then [Byte(u)]
    else if u < 0x800 then [Byte(0xC0 + u / 0x40), Byte(0x80 + u % 0x40)]
    else if u < 0x10000 then
      [Byte(0xE0 + u / 0x1000), Byte(0x80 + u / 0x40 % 0x40), Byte(0x80 + u % 0x40)]
    else
      [Byte(0xF0 + u / 0x40000), Byte(0x80 + u / 0x1000 % 0x40), Byte(0x80 + u / 0x40 % 0x40), Byte(0x80 + u % 0x40)]
  }

  function Utf8(s: string): string {
    if s == "" then "" else Utf8Char(s[0]) + Utf8(s[1..])
  }

  predicate IsAlphanumeric(c: char) {
    'a' <= c <= 'z' || 'A' <= c <= 'Z' || '0' <= c <= '9'
  }

  /** The characters that `encodeURIComponent` leaves alone. */
  predicate IsUnescaped(c: char) {
    IsAlphanumeric(c) || c in "-_.!~*'()"
  }

  function HexDigit(n: nat): (c: char)
    requires n < 16
    ensures IsAlphanumeric(c)
  {
    if n < 10 then ('0' as int + n) as char else ('A' as int + n - 10) as char
  }

  function HexValue(c: char): (v: Option<nat>)
    ensures v.Some? ==> v.value < 16
  {
    if '0' <= c <= '9' then Some(c as int - '0' as int)
    else if 'A' <= c <= 'F' then Some(c as int - 'A' as int + 10)
    else if 'a' <= c <= 'f' then Some(c as int - 'a' as int + 10)
    else None
  }

  predicate IsByte(c: char) {
    c as int < 256
  }

  predicate IsBytes(s: string) {
    forall i :: 0 <= i < |s| ==> IsByte(s[i])
  }

  function Escape(b: char): string
    requires IsByte(b)
  {
    ['%', HexDigit(b as int / 16), HexDigit(b as int % 16)]
  }

  function EscapeAll(bytes: string): string
    requires IsBytes(bytes)
  {
    if bytes == "" then "" else Escape(bytes[0]) + EscapeAll(bytes[1..])
  }

  lemma Utf8CharIsBytes(c: char)
    ensures IsBytes(Utf8Char(c))
  {
  }

  function EncodeChar(c: char): string {
    Utf8CharIsBytes(c);
    if IsUnescaped(c) then [c] else EscapeAll(Utf8Char(c))
  }

  function EncodeURIComponent(s: string): string {
    if s == "" then "" else EncodeChar(s[0]) + EncodeURIComponent(s[1..])
  }

  /** `url.PathUnescape`; None on a malformed escape. */
  function Unescape(s: string): Option<string> {
    if s == "" then Some("")
    else if s[0] != '%' then Prepend(s[0], Unescape(s[1..]))
    else if |s| < 3 || HexValue(s[1]).None? || HexValue(s[2]).None? then None
    else Prepend(Byte(HexValue(s[1]).value * 16 + HexValue(s[2]).value), Unescape(s[3..]))
  }

  function Prepend(c: char, rest: Option<string>): Option<string> {
    if rest.Some? then Some([c] + rest.value) else None
  }

  const HEX_UPPER := "0123456789ABCDEF"
  const HEX_LOWER := "0123456789abcdef"

  /** The sixteen digits in either case, and nothing else. */
  lemma HexExactly(c: char, n: nat)
    requires n < 16
    ensures HexValue(c) == Some(n) <==> c == HEX_UPPER[n] || c == HEX_LOWER[n]
    ensures HexDigit(n) == HEX_UPPER[n]
  {
    assert forall k :: 0 <= k < 10 ==> HEX_UPPER[k] as int == 48 + k && HEX_LOWER[k] as int == 48 + k;
    assert forall k :: 10 <= k < 16 ==> HEX_UPPER[k] as int == 55 + k && HEX_LOWER[k] as int == 87 + k;
  }

  /** How many bytes a character takes (section 3 of RFC 3629): never more than needed. */
  lemma Utf8Lengths(c: char)
    ensures |Utf8Char(c)| == 1 <==> c as int <= 0x7F
    ensures |Utf8Char(c)| == 2 <==> 0x80 <= c as int <= 0x7FF
    ensures |Utf8Char(c)| == 3 <==> 0x800 <= c as int <= 0xFFFF
    ensures |Utf8Char(c)| == 4 <==> 0x10000 <= c as int
  {
  }

  // ----- decoding undoes encoding -----

  lemma HexRoundTrip(n: nat)
    requires n < 16
    ensures HexValue(HexDigit(n)) == Some(n)
  {
  }

  lemma UnescapeOne(b: char, rest: string)
    requires IsByte(b)
    ensures Unescape(Escape(b) + rest) == Prepend(b, Unescape(rest))
  {
    var s := Escape(b) + rest;
    HexRoundTrip(b as int / 16);
    HexRoundTrip(b as int % 16);
    assert s[0] == '%' && s[1] == HexDigit(b as int / 16) && s[2] == HexDigit(b as int % 16);
    assert s[3..] == rest;
  }

  lemma {:induction false} UnescapeMany(bytes: string, rest: string)
    requires IsBytes(bytes) && Unescape(rest).Some?
    ensures Unescape(EscapeAll(bytes) + rest) == Some(bytes + Unescape(rest).value)
  {
    if bytes == "" {
      assert EscapeAll(bytes) + rest == rest && bytes + Unescape(rest).value == Unescape(rest).value;
    } else {
      UnescapeMany(bytes[1..], rest);
      Assoc(Escape(bytes[0]), EscapeAll(bytes[1..]), rest);
      UnescapeOne(bytes[0], EscapeAll(bytes[1..]) + rest);
      Assoc([bytes[0]], bytes[1..], Unescape(rest).value);
      assert [bytes[0]] + bytes[1..] == bytes;
    }
  }

  lemma UnescapeChar(c: char, rest: string)
    requires Unescape(rest).Some?
    ensures Unescape(EncodeChar(c) + rest) == Some(Utf8Char(c) + Unescape(rest).value)
  {
    Utf8CharIsBytes(c);
    if IsUnescaped(c) {
      assert c != '%' && (c as int) < 0x80;
      assert ([c] + rest)[1..] == rest;
    } else {
      UnescapeMany(Utf8Char(c), rest);
    }
  }

  /** Decoding an encoded string gives its UTF-8 bytes. */
  lemma {:induction false} UnescapeEncoded(s: string)
    ensures Unescape(EncodeURIComponent(s)) == Some(Utf8(s))
  {
    if s != "" {
      UnescapeEncoded(s[1..]);
      UnescapeChar(s[0], EncodeURIComponent(s[1..]));
    }
  }

  /** Text without a percent sign decodes to itself. */
  lemma {:induction false} UnescapePlain(s: string)
    requires '%' !in s
    ensures Unescape(s) == Some(s)
  {
    if s != "" {
      assert s[0] in s;
      UnescapePlain(s[1..]);
      assert [s[0]] + s[1..] == s;
    }
  }

  lemma {:induction false} UnescapeShrinks(s: string)
    requires Unescape(s).Some?
    ensures |Unescape(s).value| <= |s| && ('%' in s ==> |Unescape(s).value| < |s|)
  {
    if s != "" { UnescapeShrinks(if s[0] == '%' then s[3..] else s[1..]); }
  }

  /** Decoding keeps a text exactly when it holds no percent sign. */
  lemma UnescapeKeeps(s: string)
    ensures Unescape(s) == Some(s) <==> '%' !in s
  {
    if '%' !in s {
      UnescapePlain(s);
    } else if Unescape(s).Some? {
      UnescapeShrinks(s);
    }
  }

  // ----- the alphabet of encoded strings -----

  /** What an encoded string is made of. */
  predicate IsEncodedChar(c: char) {
    IsUnescaped(c) || c == '%'
  }

  lemma {:induction false} EscapeAllAlphabet(bytes: string)
    requires IsBytes(bytes)
    ensures forall c :: c in EscapeAll(bytes) ==> IsEncodedChar(c)
  {
    if bytes != "" { EscapeAllAlphabet(bytes[1..]); }
  }

  lemma {:induction false} EncodedAlphabet(s: string)
    ensures forall c :: c in EncodeURIComponent(s) ==> IsEncodedChar(c)
  {
    if s != "" {
      EncodedAlphabet(s[1..]);
      Utf8CharIsBytes(s[0]);
      EscapeAllAlphabet(Utf8Char(s[0]));
    }
  }

  // ----- different strings have different bytes -----

  lemma Utf8CharPrefixFree(c: char, x: string, d: char, y: string)
    requires Utf8Char(c) + x == Utf8Char(d) + y
    ensures c == d && x == y
  {
    var s := Utf8Char(c) + x;
    var t := Utf8Char(d) + y;
    assert s[0] == Utf8Char(c)[0] && t[0] == Utf8Char(d)[0];
    assert |Utf8Char(c)| == |Utf8Char(d)|;
    var n := |Utf8Char(c)|;
    assert s[..n] == Utf8Char(c) && t[..n] == Utf8Char(d);
    assert s[n..] == x && t[n..] == y;
    SameBytesSameChar(c, d);
  }

  /** The code point that a sequence of one to four bytes stands for. */
  function CodePoint(b: string): int {
    if |b| == 1 then b[0] as int
    else if |b| == 2 then (b[0] as int - 0xC0) * 0x40 + (b[1] as int - 0x80)
    else if |b| == 3 then ((b[0] as int - 0xE0) * 0x40 + (b[1] as int - 0x80)) * 0x40 + (b[2] as int - 0x80)
    else if |b| == 4 then
      (((b[0] as int - 0xF0) * 0x40 + (b[1] as int - 0x80)) * 0x40 + (b[2] as int - 0x80)) * 0x40 + (b[3] as int - 0x80)
    else -1
  }

  lemma CodePointOfChar(c: char)
    ensures CodePoint(Utf8Char(c)) == c as int
  {
    var u := c as int;
    assert u / 0x1000 == u / 0x40 / 0x40 && u / 0x40000 == u / 0x1000 / 0x40;
  }

  lemma SameBytesSameChar(c: char, d: char)
    requires Utf8Char(c) == Utf8Char(d)
    ensures c == d
  {
    CodePointOfChar(c);
    CodePointOfChar(d);
  }

  lemma {:induction false} Utf8Injective(s: string, t: string)
    requires Utf8(s) == Utf8(t)
    ensures s == t
  {
    Utf8NonEmpty(s);
    Utf8NonEmpty(t);
    if s != "" && t != "" {
      Utf8CharPrefixFree(s[0], Utf8(s[1..]), t[0], Utf8(t[1..]));
      Utf8Injective(s[1..], t[1..]);
      assert s == [s[0]] + s[1..] && t == [t[0]] + t[1..];
    }
  }

  lemma Utf8NonEmpty(s: string)
    ensures Utf8(s) == "" <==> s == ""
  {
    if s != "" { assert |Utf8Char(s[0])| > 0; }
  }
}
