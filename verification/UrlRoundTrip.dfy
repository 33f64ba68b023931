/** From the id a client puts into a path to the id the server reads out of it. */
module UrlRoundTrip {
  import opened Wrappers
  import opened Text
  import opened Percent
  import opened PathSerializer
  import opened PathTemplate
  import opened PathSafety
  import opened Router

  // ----- the client -----

  /** `getUrl`, with the query already serialised. */
  function GetUrl(baseUrl: string, path: Option<map<string, Value>>, search: string, url: string)
    : Result<string, Error>
  {
    var full := baseUrl + (if "/" <= url then url else "/" + url);
    var expanded := if path.Some? then Expand(full, path.value) else Ok(full);
    var query := if "?" <= search then search[1..] else search;
    if expanded.Err? || query == "" then expanded else Ok(expanded.value + "?" + query)
  }

  predicate StartsWithSlash(url: string) {
    url != "" && url[0] == '/'
  }

  /** What is put behind the path: nothing for an empty query, else the query behind one `?`. */
  function Tail(search: string): string {
    if search == "" || search == "?" then ""
    else if search[0] == '?' then search
    else "?" + search
  }

  lemma TailOf(search: string, url: string)
    ensures var query := if "?" <= search then search[1..] else search;
            (if query == "" then url else url + "?" + query) == url + Tail(search)
  {
    assert url + "" == url;
    if search != "" && search[0] == '?' { assert search == "?" + search[1..]; }
  }

  lemma TokensBehind(lead: string, tokens: seq<Token>, fill: Filling)
    ensures var all := [Literal(lead)] + tokens;
            Print(all) == lead + Print(tokens) && Simultaneous(all, fill) == lead + Simultaneous(tokens, fill)
  {
    assert ([Literal(lead)] + tokens)[1..] == tokens;
  }

  lemma ExpandBehind(lead: string, tokens: seq<Token>, path: map<string, Value>)
    requires '{' !in lead && WellFormed(tokens) && NoneThrows(tokens, path) && AllInert(tokens, Fill(path))
    ensures Expand(lead + Print(tokens), path) == Ok(lead + Simultaneous(tokens, Fill(path)))
  {
    var all := [Literal(lead)] + tokens;
    TokensBehind(lead, tokens, Fill(path));
    assert forall i :: 0 < i < |all| ==> all[i] == tokens[i - 1];
    SequentialIsSimultaneous(all, path);
  }

  /** The base and the slash that the path may lack. */
  function Origin(base: string, url: string): string {
    if StartsWithSlash(url) then base else base + "/"
  }

  lemma FullUrl(base: string, url: string)
    ensures base + (if "/" <= url then url else "/" + url) == Origin(base, url) + url
  {
    assert "/" <= url <==> StartsWithSlash(url);
    Assoc(base, "/", url);
  }

  /** A URL is the base, a slash unless the path brings one, the path with its placeholders
      filled, and the query: nothing in the base is taken for a placeholder. */
  lemma UrlIsAssembled(base: string, tokens: seq<Token>, path: map<string, Value>, search: string)
    requires '{' !in base && WellFormed(tokens) && NoneThrows(tokens, path) && AllInert(tokens, Fill(path))
    ensures var origin := Origin(base, Print(tokens));
            && GetUrl(base, Some(path), search, Print(tokens)) ==
               Ok(origin + Simultaneous(tokens, Fill(path)) + Tail(search))
            && GetUrl(base, None, search, Print(tokens)) == Ok(origin + Print(tokens) + Tail(search))
  {
    var url := Print(tokens);
    FullUrl(base, url);
    ExpandBehind(Origin(base, url), tokens, path);
    TailOf(search, Origin(base, url) + Simultaneous(tokens, Fill(path)));
    TailOf(search, Origin(base, url) + url);
  }

  const PARAMETER := "organizationId"

  function OrganizationTemplate(): string {
    "/" + ORGANIZATIONS + Braced(PARAMETER)
  }

  function OrganizationTokens(): seq<Token> {
    [Literal("/" + ORGANIZATIONS), Hole(PARAMETER)]
  }

  lemma TokensOfTemplate(fill: Filling)
    requires fill(PARAMETER).Some?
    ensures Print(OrganizationTokens()) == OrganizationTemplate()
    ensures Simultaneous(OrganizationTokens(), fill) == "/" + ORGANIZATIONS + fill(PARAMETER).value
  {
    var tail := OrganizationTokens()[1..];
    assert tail == [Hole(PARAMETER)] && tail[1..] == [];
    assert Print(tail) == Braced(PARAMETER) + "" == Braced(PARAMETER);
    assert Simultaneous(tail, fill) == fill(PARAMETER).value + "" == fill(PARAMETER).value;
  }

  lemma OrganizationUrl(id: string)
    ensures GetUrl("", Some(map[PARAMETER := Scalar(id)]), "", OrganizationTemplate()) ==
            Ok("/" + ORGANIZATIONS + EncodeURIComponent(id))
  {
    var path := map[PARAMETER := Scalar(id)];
    PlainPlaceholder();
    EncodedIsInert(id);
    assert "" + OrganizationTemplate() == OrganizationTemplate();
    assert Fill(path)(PARAMETER) == Some(EncodeURIComponent(id));
    TokensOfTemplate(Fill(path));
    SequentialIsSimultaneous(OrganizationTokens(), path);
  }

  lemma PlainPlaceholder()
    ensures ParsePlaceholder(PARAMETER) == Placeholder(false, Simple, PARAMETER)
    ensures BraceFree(PARAMETER) && PARAMETER != "" && BraceFree("/" + ORGANIZATIONS)
  {
    assert PARAMETER[0] == 'o' && PARAMETER[|PARAMETER| - 1] == 'd';
  }

  const DOTS: set<string> := {".", "%2e", "%2E"}

  /** A path segment that a URL parser removes: one or two dots, escaped or not
      (section 4.1 of the WHATWG URL standard). */
  ghost predicate IsDotSegment(s: string) {
    s in DOTS || exists d, e :: d in DOTS && e in DOTS && s == d + e
  }

  lemma DecodeDot(d: string, rest: string)
    requires d in DOTS && Unescape(rest).Some?
    ensures Unescape(d + rest) == Some("." + Unescape(rest).value)
  {
    var s := d + rest;
    if d == "." {
      assert s[1..] == rest;
    } else {
      assert s[0] == '%' && s[1] == '2' && s[2] in "eE" && s[3..] == rest;
    }
  }

  lemma DotSegmentsDecode(s: string)
    requires IsDotSegment(s)
    ensures Unescape(s) == Some(".") || Unescape(s) == Some("." + ".")
  {
    assert "." + "" == ".";
    if s in DOTS {
      DecodeDot(s, "");
      assert s + "" == s;
    } else {
      var d, e :| d in DOTS && e in DOTS && s == d + e;
      DecodeDot(e, "");
      assert e + "" == e;
      DecodeDot(d, e);
    }
  }

  lemma Utf8Ascii(c: char, rest: string)
    requires c as int < 0x80
    ensures Utf8([c] + rest) == [c] + Utf8(rest)
  {
    assert ([c] + rest)[1..] == rest;
  }

  lemma EncodeUnescaped(c: char, rest: string)
    requires IsUnescaped(c)
    ensures EncodeURIComponent([c] + rest) == [c] + EncodeURIComponent(rest)
  {
    assert ([c] + rest)[1..] == rest;
  }

  lemma DotsAsTheyAre()
    ensures Utf8(".") == "." && Utf8("." + ".") == "." + "."
    ensures EncodeURIComponent(".") == "." && EncodeURIComponent("." + ".") == "." + "."
  {
    assert "." + "" == ".";
    Utf8Ascii('.', "");
    Utf8Ascii('.', ".");
    EncodeUnescaped('.', "");
    EncodeUnescaped('.', ".");
  }

  /** An encoded id survives as a path segment exactly when the id is not `.` or `..`. */
  lemma StaysOneSegment(id: string)
    ensures '/' !in EncodeURIComponent(id)
    ensures IsDotSegment(EncodeURIComponent(id)) <==> id == "." || id == "." + "."
  {
    EncodedAlphabet(id);
    DotsAsTheyAre();
    if IsDotSegment(EncodeURIComponent(id)) {
      UnescapeEncoded(id);
      DotSegmentsDecode(EncodeURIComponent(id));
      if Utf8(id) == "." { Utf8Injective(id, "."); } else { Utf8Injective(id, "." + "."); }
    } else {
      assert "." in DOTS;
    }
  }

  // ----- net/url -----

  /** A byte that `url.URL.EscapedPath` leaves alone. */
  predicate IsPathByte(c: char) {
    IsAlphanumeric(c) || c in "-_.~$&+,/:;=@"
  }

  function EscapePath(bytes: string): string
    requires IsBytes(bytes)
  {
    if bytes == "" then ""
    else (if IsPathByte(bytes[0]) then [bytes[0]] else Escape(bytes[0])) + EscapePath(bytes[1..])
  }

  /** Parsing keeps the raw path only where re-escaping the decoded one would not
      give it back; a malformed escape is no URL. */
  function ParsePath(raw: string): Option<Url> {
    match Unescape(raw)
    case None => None
    case Some(path) => Some(Url(path, if IsBytes(path) && EscapePath(path) == raw then "" else raw))
  }

  lemma {:induction false} EscapePathDecodes(bytes: string)
    requires IsBytes(bytes)
    ensures Unescape(EscapePath(bytes)) == Some(bytes)
  {
    if bytes != "" {
      EscapePathDecodes(bytes[1..]);
      assert bytes == [bytes[0]] + bytes[1..];
      if IsPathByte(bytes[0]) {
        assert bytes[0] != '%' && ([bytes[0]] + EscapePath(bytes[1..]))[1..] == EscapePath(bytes[1..]);
      } else {
        UnescapeOne(bytes[0], EscapePath(bytes[1..]));
      }
    }
  }

  /** A path parses exactly when its escapes are well-formed; the parsed URL has the decoded path,
      and remembers the raw one exactly where that could not be had back by escaping again. */
  lemma ParsePathExactly(raw: string)
    requires IsBytes(raw)
    ensures ParsePath(raw).Some? <==> Unescape(raw).Some?
    ensures ParsePath(raw).Some? ==>
              var url := ParsePath(raw).value;
              && Unescape(raw) == Some(url.path) && IsBytes(url.path)
              && (url.rawPath == "" <==> EscapePath(url.path) == raw)
              && (if url.rawPath != "" then url.rawPath else EscapePath(url.path)) == raw
  {
    if Unescape(raw).Some? {
      UnescapedIsBytes(raw);
      EscapePathDecodes(Unescape(raw).value);
    }
  }

  lemma {:induction false} UnescapedIsBytes(raw: string)
    requires IsBytes(raw) && Unescape(raw).Some?
    ensures IsBytes(Unescape(raw).value)
    decreases |raw|
  {
    if raw != "" { UnescapedIsBytes(if raw[0] == '%' then raw[3..] else raw[1..]); }
  }

  lemma {:induction false} EscapePathSlash(bytes: string)
    requires IsBytes(bytes) && '/' in bytes
    ensures '/' in EscapePath(bytes)
  {
    if bytes[0] != '/' { EscapePathSlash(bytes[1..]); }
  }

  lemma {:induction false} EscapePathAppend(a: string, b: string)
    requires IsBytes(a) && IsBytes(b)
    ensures IsBytes(a + b) && EscapePath(a + b) == EscapePath(a) + EscapePath(b)
  {
    if a == "" {
      assert a + b == b;
    } else {
      assert (a + b)[1..] == a[1..] + b;
      EscapePathAppend(a[1..], b);
    }
  }

  lemma {:induction false} EscapePathPlain(a: string)
    requires forall i :: 0 <= i < |a| ==> IsPathByte(a[i]) && IsByte(a[i])
    ensures EscapePath(a) == a
  {
    if a != "" {
      EscapePathPlain(a[1..]);
      assert a == [a[0]] + a[1..];
    }
  }

  // ----- the normaliser's contract -----

  /** A byte that may stand decoded without changing what the path means to the router. */
  predicate MayStandDecoded(c: char) {
    c != '%' && c != '/'
  }

  function EscapedByte(s: string): Option<char> {
    if |s| >= 3 && s[0] == '%' && HexValue(s[1]).Some? && HexValue(s[2]).Some?
    then Some(Byte(HexValue(s[1]).value * 16 + HexValue(s[2]).value)) else None
  }

  /** `n` is `raw` with every escape either kept, in upper case, or decoded, but for those of
      the percent sign and the slash, which are kept. */
  predicate IsNormalForm(raw: string, n: string)
    decreases |raw|
  {
    if raw == "" then n == ""
    else if raw[0] != '%' then n != "" && n[0] == raw[0] && IsNormalForm(raw[1..], n[1..])
    else
      var b := EscapedByte(raw);
      b.Some? &&
      ((Escape(b.value) <= n && IsNormalForm(raw[3..], n[3..])) ||
       (MayStandDecoded(b.value) && n != "" && n[0] == b.value && IsNormalForm(raw[3..], n[1..])))
  }

  ghost predicate Normalizes(normalize: Normalizer) {
    forall raw :: Unescape(raw).Some? ==> normalize(raw).Some? && IsNormalForm(raw, normalize(raw).value)
  }

  /** A normaliser that decodes the bytes `encodeURIComponent` leaves alone, and puts all other
      escapes in upper case. */
  function Canonical(raw: string): Option<string>
    decreases |raw|
  {
    if raw == "" then Some("")
    else if raw[0] != '%' then Prepend(raw[0], Canonical(raw[1..]))
    else if |raw| < 3 || HexValue(raw[1]).None? || HexValue(raw[2]).None? then None
    else
      var b := Byte(HexValue(raw[1]).value * 16 + HexValue(raw[2]).value);
      var rest := Canonical(raw[3..]);
      if rest.None? then None else Some((if IsUnescaped(b) then [b] else Escape(b)) + rest.value)
  }

  lemma {:induction false} CanonicalIsNormal(raw: string)
    ensures Canonical(raw).Some? <==> Unescape(raw).Some?
    ensures Canonical(raw).Some? ==> IsNormalForm(raw, Canonical(raw).value)
    decreases |raw|
  {
    if raw == "" {
    } else if raw[0] != '%' {
      CanonicalIsNormal(raw[1..]);
      if Canonical(raw).Some? { assert Canonical(raw).value[1..] == Canonical(raw[1..]).value; }
    } else if |raw| >= 3 && HexValue(raw[1]).Some? && HexValue(raw[2]).Some? {
      CanonicalIsNormal(raw[3..]);
      var b := Byte(HexValue(raw[1]).value * 16 + HexValue(raw[2]).value);
      assert EscapedByte(raw) == Some(b);
      if Canonical(raw).Some? {
        var n := Canonical(raw).value;
        var rest := Canonical(raw[3..]).value;
        if IsUnescaped(b) {
          assert n[1..] == rest && MayStandDecoded(b);
        } else {
          assert n[..3] == Escape(b) && n[3..] == rest;
        }
      }
    }
  }

  /** There are normalisers that do what is asked of them. */
  lemma CanonicalNormalizes()
    ensures Normalizes(Canonical)
  {
    forall raw | Unescape(raw).Some? ensures Canonical(raw).Some? && IsNormalForm(raw, Canonical(raw).value) {
      CanonicalIsNormal(raw);
    }
  }

  lemma {:induction false} NormalFormMeaning(raw: string, n: string)
    requires IsNormalForm(raw, n)
    ensures Unescape(n) == Unescape(raw)
    ensures '/' in n ==> '/' in raw
    decreases |raw|
  {
    if raw == "" {
    } else if raw[0] != '%' {
      NormalFormMeaning(raw[1..], n[1..]);
      assert n == [n[0]] + n[1..];
    } else {
      var b := EscapedByte(raw).value;
      if Escape(b) <= n && IsNormalForm(raw[3..], n[3..]) {
        NormalFormMeaning(raw[3..], n[3..]);
        assert n == Escape(b) + n[3..];
        UnescapeOne(b, n[3..]);
      } else {
        NormalFormMeaning(raw[3..], n[1..]);
        assert n == [b] + n[1..];
      }
    }
  }

  lemma {:induction false} NormalFormPrefix(p: string, raw: string, n: string)
    requires '%' !in p && IsNormalForm(p + raw, n)
    ensures p <= n && IsNormalForm(raw, n[|p|..])
  {
    if p == "" {
      assert p + raw == raw && n[0..] == n;
    } else {
      assert p[0] in p && (p + raw)[1..] == p[1..] + raw;
      NormalFormPrefix(p[1..], raw, n[1..]);
      assert n[1..][|p| - 1..] == n[|p|..];
      assert p == [p[0]] + p[1..] && n == [n[0]] + n[1..];
    }
  }

  // ----- the round trip -----

  lemma {:induction false} UnescapeBehind(p: string, rest: string)
    requires '%' !in p
    ensures Unescape(p + rest) == (if Unescape(rest).Some? then Some(p + Unescape(rest).value) else None)
  {
    if p == "" {
      assert p + rest == rest;
      if Unescape(rest).Some? { assert p + Unescape(rest).value == Unescape(rest).value; }
    } else {
      assert p[0] in p && (p + rest)[1..] == p[1..] + rest;
      UnescapeBehind(p[1..], rest);
      if Unescape(rest).Some? { assert p + Unescape(rest).value == [p[0]] + (p[1..] + Unescape(rest).value); }
    }
  }

  lemma {:induction false} Utf8IsBytes(s: string)
    ensures IsBytes(Utf8(s))
  {
    if s != "" {
      Utf8IsBytes(s[1..]);
      Utf8CharIsBytes(s[0]);
    }
  }

  function Base(): string {
    "/" + ORGANIZATIONS
  }

  lemma BaseIsPlain()
    ensures '%' !in Base() && forall i :: 0 <= i < |Base()| ==> IsPathByte(Base()[i]) && IsByte(Base()[i])
  {
  }

  /** The argument stands for the id, as both entry points will report it. */
  predicate StandsFor(id: string, arg: string, url: Url, normalize: Normalizer) {
    && Element(url, normalize) == Base() + arg && '/' !in arg
    && (if ElementIsEscaped(url, normalize) then Unescape(arg) else Some(arg)) == Some(Utf8(id))
    && (if url.rawPath != "" then Reported(arg) else arg) == Utf8(id)
  }

  /** Without a raw path the decoded one is walked; it then has no slash to hide. */
  lemma DecodedElement(id: string, url: Url, normalize: Normalizer)
    requires url.path == Base() + Utf8(id) && url.rawPath == ""
    requires IsBytes(url.path) && EscapePath(url.path) == Base() + EncodeURIComponent(id)
    ensures StandsFor(id, Utf8(id), url, normalize)
  {
    BaseIsPlain();
    Utf8IsBytes(id);
    EscapePathAppend(Base(), Utf8(id));
    EscapePathPlain(Base());
    SameTail(Base(), EscapePath(Utf8(id)), EncodeURIComponent(id));
    StaysOneSegment(id);
    if '/' in Utf8(id) { EscapePathSlash(Utf8(id)); }
  }

  lemma SameTail(p: string, a: string, b: string)
    requires p + a == p + b
    ensures a == b
  {
    assert (p + a)[|p|..] == a && (p + b)[|p|..] == b;
  }

  lemma NormalizedElement(id: string, url: Url, normalize: Normalizer) returns (arg: string)
    requires url.rawPath == Base() + EncodeURIComponent(id) && normalize(url.rawPath).Some?
    requires IsNormalForm(url.rawPath, normalize(url.rawPath).value)
    ensures StandsFor(id, arg, url, normalize)
  {
    var (enc, n) := (EncodeURIComponent(id), normalize(url.rawPath).value);
    BaseIsPlain();
    NormalFormPrefix(Base(), enc, n);
    arg := n[|Base()|..];
    assert n == Base() + arg;
    NormalFormMeaning(enc, arg);
    UnescapeEncoded(id);
    StaysOneSegment(id);
    if '%' !in n {
      assert forall c :: c in arg ==> c in n;
      UnescapePlain(arg);
    }
  }

  /** The path the router walks is the fixed prefix and one slash-free argument that
      stands for the id. */
  lemma ElementOfId(id: string, url: Url, normalize: Normalizer) returns (arg: string)
    requires Normalizes(normalize) && ParsePath(Base() + EncodeURIComponent(id)) == Some(url)
    ensures StandsFor(id, arg, url, normalize)
  {
    BaseIsPlain();
    UnescapeEncoded(id);
    UnescapeBehind(Base(), EncodeURIComponent(id));
    if url.rawPath == "" {
      arg := Utf8(id);
      DecodedElement(id, url, normalize);
    } else {
      arg := NormalizedElement(id, url, normalize);
    }
  }

  /** Whatever the id, the server's router hands its UTF-8 bytes to GetOrganization. */
  method RoundTrip(id: string, normalize: Normalizer) returns (d: Dispatch, escaped: bool, found: Option<Route>)
    requires Normalizes(normalize)
    ensures d.Handled? && d.route.operation == GetOrganization && |d.route.args| == 1
    ensures (if escaped then Unescape(d.route.args[0]) else Some(d.route.args[0])) == Some(Utf8(id))
    ensures found == Some(Route(GetOrganization, [Utf8(id)]))
  {
    BaseIsPlain();
    UnescapeEncoded(id);
    UnescapeBehind(Base(), EncodeURIComponent(id));
    var url := ParsePath(Base() + EncodeURIComponent(id)).value;
    ghost var arg := ElementOfId(id, url, normalize);
    ghost var route := Route(GetOrganization, [arg]);
    ghost var row := Row(GetOrganization, Base(), true);
    assert row in TABLE && RowAnswers(row, Element(url, normalize), route);
    assert Routed("", url, normalize, route);
    d, escaped := ServeHTTP("", url, "GET", normalize);
    found := FindPath("", "GET", url, normalize);
    forall r | Routed("", url, normalize, r) ensures r == route {
      RouteIsUnique(Element(url, normalize), r, route);
    }
    assert found.value.args == [Utf8(id)];
  }

  // ----- the two entry points -----

  /** The argument as a handler decodes it. */
  function HandlerArgument(url: Url, normalize: Normalizer, arg: string): Option<string> {
    if ElementIsEscaped(url, normalize) then Unescape(arg) else Some(arg)
  }

  /** The argument as FindPath reports it. */
  function FoundArgument(url: Url, arg: string): string {
    if url.rawPath != "" then Reported(arg) else arg
  }

  /** What follows a slash starts outside of every escape. */
  lemma {:induction false} TailDecodes(prefix: string, text: string, arg: string)
    requires '%' !in text && Unescape(prefix + ("/" + text + arg)).Some?
    ensures Unescape(arg).Some?
    decreases |prefix|
  {
    var s := prefix + ("/" + text + arg);
    if prefix == "" {
      assert s == ("/" + text) + arg;
      UnescapeBehind("/" + text, arg);
    } else if prefix[0] != '%' {
      assert s[1..] == prefix[1..] + ("/" + text + arg);
      TailDecodes(prefix[1..], text, arg);
    } else {
      assert |s| >= 3 && HexValue(s[1]).Some? && HexValue(s[2]).Some?;
      assert s[|prefix|] == '/' && HexValue('/').None?;
      assert s[3..] == prefix[3..] + ("/" + text + arg);
      TailDecodes(prefix[3..], text, arg);
    }
  }

  lemma RoutedArgument(prefix: string, url: Url, normalize: Normalizer, route: Route)
    requires Routed(prefix, url, normalize, route) && |route.args| == 1
    ensures Element(url, normalize) == prefix + ("/" + ORGANIZATIONS + route.args[0])
  {
    var element := Element(url, normalize);
    var path := CutPrefix(element, prefix).value;
    BelowSlash(path, route);
    assert path == "/" + path[1..];
    assert element == prefix + path;
  }

  /** For every path that parses, the handler decodes its argument to what FindPath reports. */
  lemma ArgumentsAgree(prefix: string, raw: string, url: Url, normalize: Normalizer, route: Route)
    requires Normalizes(normalize) && ParsePath(raw) == Some(url)
    requires Routed(prefix, url, normalize, route) && |route.args| == 1
    ensures HandlerArgument(url, normalize, route.args[0]) == Some(FoundArgument(url, route.args[0]))
  {
    var arg := route.args[0];
    if url.rawPath != "" {
      var n := normalize(raw).value;
      NormalFormMeaning(raw, n);
      RoutedArgument(prefix, url, normalize, route);
      BaseIsPlain();
      assert '%' !in ORGANIZATIONS by { assert forall c :: c in ORGANIZATIONS ==> c in Base(); }
      TailDecodes(prefix, ORGANIZATIONS, arg);
      if '%' !in n {
        assert forall c :: c in arg ==> c in n;
        UnescapePlain(arg);
      }
    }
  }

  /** Where normalisation fails the router walks the decoded path, and FindPath decodes the
      argument once more: on a routed URL they differ exactly when it still holds a well-formed
      escape. A URL that came out of parsing is never of that kind. */
  lemma ArgumentsDiffer(prefix: string, url: Url, normalize: Normalizer, route: Route)
    requires url.rawPath != "" && normalize(url.rawPath).None?
    requires Routed(prefix, url, normalize, route) && |route.args| == 1
    ensures var arg := route.args[0];
            HandlerArgument(url, normalize, arg) == Some(FoundArgument(url, arg)) <==>
            '%' !in arg || Unescape(arg).None?
    ensures Normalizes(normalize) ==> forall raw :: ParsePath(raw) != Some(url)
  {
    UnescapeKeeps(route.args[0]);
  }

  /** A URL put together by hand can be: for any slash-free argument and any raw path that
      cannot be normalised, it is routed with that argument. */
  lemma HandMadeUrl(raw: string, normalize: Normalizer, arg: string)
    requires raw != "" && normalize(raw).None? && '/' !in arg
    ensures Routed("", Url(Base() + arg, raw), normalize, Route(GetOrganization, [arg]))
  {
    ghost var row := Row(GetOrganization, Base(), true);
    assert row in TABLE && RowAnswers(row, Base() + arg, Route(GetOrganization, [arg]));
  }

  /** So `%41` in a decoded path is one argument to the handler and another, `A`, in FindPath. */
  lemma EscapeDecodedTwice(raw: string, normalize: Normalizer)
    requires raw != "" && normalize(raw).None?
    ensures var (url, arg) := (Url(Base() + "%41", raw), "%41");
            && Routed("", url, normalize, Route(GetOrganization, [arg]))
            && HandlerArgument(url, normalize, arg) == Some("%41") && FoundArgument(url, arg) == "A"
  {
    HandMadeUrl(raw, normalize, "%41");
    assert Byte(4 * 16 + 1) == 'A';
    UnescapeOne('A', "");
    assert Escape('A') + "" == "%41";
    assert "A" + "" == "A";
  }
}
