/** The generated router: nested prefix switches over the path, against the table
    of operations they were unrolled from. */
module Router {
  import opened Wrappers
  import opened Text
  import opened Percent

  datatype Operation = GetLiveness | GetReadiness | GetOrganization

  datatype Route = Route(operation: Operation, args: seq<string>)

  datatype Dispatch = Handled(route: Route) | NotAllowed | NotFound

  /** A request URL as net/http parsed it. */
  datatype Url = Url(path: string, rawPath: string)

  // ----- the table -----

  const ORGANIZATIONS := "api/v1/organizations/"
  const HEALTH := "health/"
  const LIVE := "live"
  const READY := "ready"

  /** One row: a fixed text, followed by nothing or by one slash-free parameter. */
  datatype Row = Row(operation: Operation, text: string, hasParameter: bool)

  const TABLE: set<Row> := {
    Row(GetLiveness, "/" + (HEALTH + LIVE), false),
    Row(GetReadiness, "/" + (HEALTH + READY), false),
    Row(GetOrganization, "/" + ORGANIZATIONS, true)
  }

  predicate RowAnswers(row: Row, path: string, route: Route) {
    && route.operation == row.operation
    && (if row.hasParameter
        then |route.args| == 1 && path == row.text + route.args[0] && '/' !in route.args[0]
        else route.args == [] && path == row.text)
  }

  /** Some row of the table answers `path` with `route`. */
  predicate Answers(path: string, route: Route) {
    exists row :: row in TABLE && RowAnswers(row, path, route)
  }

  // ----- the unrolled switches -----

  predicate HasPrefix(s: string, prefix: string) {
    |s| >= |prefix| && s[..|prefix|] == prefix
  }

  /** What the switches below `/` answer. */
  predicate AnswersBelow(elem: string, route: Route) {
    match route.operation
    case GetOrganization =>
      |route.args| == 1 && elem == ORGANIZATIONS + route.args[0] && '/' !in route.args[0]
    case GetLiveness => route.args == [] && elem == HEALTH + LIVE
    case GetReadiness => route.args == [] && elem == HEALTH + READY
  }

  lemma BelowSlash(path: string, route: Route)
    ensures Answers(path, route) <==> path != "" && path[0] == '/' && AnswersBelow(path[1..], route)
  {
    var (l, r, o) := (Row(GetLiveness, "/" + (HEALTH + LIVE), false), Row(GetReadiness, "/" + (HEALTH + READY), false),
                      Row(GetOrganization, "/" + ORGANIZATIONS, true));
    assert l in TABLE && r in TABLE && o in TABLE;
    assert Answers(path, route) <==>
      RowAnswers(l, path, route) || RowAnswers(r, path, route) || RowAnswers(o, path, route);
    if path != "" && path[0] == '/' { assert path == "/" + path[1..]; }
    if |route.args| == 1 { Assoc("/", ORGANIZATIONS, route.args[0]); }
    assert forall t :: ("/" + t)[1..] == t;
  }

  lemma CutPrefixOf(s: string, prefix: string, rest: string)
    ensures s == prefix + rest <==> HasPrefix(s, prefix) && s[|prefix|..] == rest
  {
    if HasPrefix(s, prefix) { assert s == prefix + s[|prefix|..]; }
  }

  /** The switch under `/health/`. */
  method WalkHealth(path: string) returns (route: Option<Route>)
    ensures forall r :: route == Some(r) <==>
              && r.args == []
              && ((r.operation == GetLiveness && path == LIVE) || (r.operation == GetReadiness && path == READY))
  {
    var elem := path;
    if |elem| == 0 {
      return None;
    }
    if elem[0] == 'l' {
      if HasPrefix(elem, LIVE) {
        elem := elem[|LIVE|..];
      } else {
        return None;
      }
      if |elem| == 0 {
        return Some(Route(GetLiveness, []));
      }
    } else if elem[0] == 'r' {
      if HasPrefix(elem, READY) {
        elem := elem[|READY|..];
      } else {
        return None;
      }
      if |elem| == 0 {
        return Some(Route(GetReadiness, []));
      }
    }
    return None;
  }

  lemma NoOrganization(elem: string)
    requires elem == "" || elem[0] != 'a'
    ensures !HasPrefix(elem, ORGANIZATIONS)
  {
    assert ORGANIZATIONS[0] == 'a';
  }

  lemma NoHealth(elem: string, rest: string)
    requires elem == "" || elem[0] != 'h'
    ensures elem != HEALTH + rest
  {
    assert (HEALTH + rest)[0] == 'h';
  }

  /** The switch under `/`. */
  method WalkBelow(path: string) returns (route: Option<Route>)
    ensures forall r :: route == Some(r) <==> AnswersBelow(path, r)
  {
    var elem := path;
    forall rest { CutPrefixOf(path, ORGANIZATIONS, rest); }
    forall rest { CutPrefixOf(path, HEALTH, rest); }
    if |elem| == 0 {
      return None;
    }
    if elem[0] == 'a' {
      NoHealth(path, LIVE);
      NoHealth(path, READY);
      if HasPrefix(elem, ORGANIZATIONS) {
        elem := elem[|ORGANIZATIONS|..];
      } else {
        return None;
      }
      var idx := IndexOf(elem, "/");
      if '/' !in elem { CharAbsent(elem, '/'); }
      if idx >= 0 {
        OccursChar(elem, '/', idx);
        return None;
      }
      assert '/' !in elem by { SlashFound(elem); }
      forall r: Route | AnswersBelow(path, r) ensures r == Route(GetOrganization, [elem]) {
        assert path == ORGANIZATIONS + r.args[0];
        assert r.args == [r.args[0]];
      }
      return Some(Route(GetOrganization, [elem]));
    } else if elem[0] == 'h' {
      NoOrganization(path);
      if HasPrefix(elem, HEALTH) {
        elem := elem[|HEALTH|..];
      } else {
        return None;
      }
      route := WalkHealth(elem);
    } else {
      NoOrganization(path);
      NoHealth(path, LIVE);
      NoHealth(path, READY);
      return None;
    }
  }

  lemma SlashFound(s: string)
    ensures '/' in s ==> IndexOf(s, "/") >= 0
  {
    if '/' in s {
      var i :| 0 <= i < |s| && s[i] == '/';
      assert OccursAt(s, "/", i);
      IndexOfIsFirst(s, "/", i);
    }
  }

  /** The walk shared by ServeHTTP and FindPath, down to a leaf: it finds the one
      route with which the table answers the path, if there is one. */
  method Walk(path: string) returns (route: Option<Route>)
    ensures forall r :: route == Some(r) <==> Answers(path, r)
  {
    forall r { BelowSlash(path, r); }
    if |path| == 0 {
      return None;
    }
    if path[0] == '/' {
      route := WalkBelow(path[1..]);
    } else {
      return None;
    }
  }

  // ----- the entry points -----

  /** `uri.NormalizeEscapedPath`; None where it reports failure. */
  type Normalizer = string -> Option<string>

  /** The path that both entry points walk: the normalised raw path where there is
      one, the decoded path otherwise. */
  function Element(url: Url, normalize: Normalizer): string {
    if url.rawPath != "" && normalize(url.rawPath).Some? then normalize(url.rawPath).value else url.path
  }

  /** Whether the path arguments handed to the handler are still escaped. */
  predicate ElementIsEscaped(url: Url, normalize: Normalizer) {
    url.rawPath != "" && normalize(url.rawPath).Some? && '%' in normalize(url.rawPath).value
  }

  /** `cutPrefix` */
  function CutPrefix(path: string, prefix: string): Option<string> {
    if prefix == "" then Some(path)
    else if !(prefix <= path) then None
    else Some(path[|prefix|..])
  }

  predicate Routed(prefix: string, url: Url, normalize: Normalizer, route: Route) {
    var path := CutPrefix(Element(url, normalize), prefix);
    path.Some? && Answers(path.value, route)
  }

  /** The prefix is cut off exactly when the path starts with it; the empty one changes nothing. */
  lemma RoutedExactly(prefix: string, url: Url, normalize: Normalizer, route: Route)
    ensures Routed(prefix, url, normalize, route) <==>
            exists rest :: Element(url, normalize) == prefix + rest && Answers(rest, route)
  {
    var path := Element(url, normalize);
    if prefix <= path {
      assert path == prefix + path[|prefix|..];
    }
    forall rest | path == prefix + rest ensures CutPrefix(path, prefix) == Some(rest) {
      assert path[|prefix|..] == rest;
    }
  }

  /** An operation is called iff the table has a route for the path and the method is
      GET; a path with a route is not allowed any other method; the rest is not found. */
  method ServeHTTP(prefix: string, url: Url, verb: string, normalize: Normalizer)
    returns (d: Dispatch, escaped: bool)
    ensures forall r :: d == Handled(r) <==> verb == "GET" && Routed(prefix, url, normalize, r)
    ensures d == NotAllowed <==> verb != "GET" && exists r :: Routed(prefix, url, normalize, r)
    ensures escaped == ElementIsEscaped(url, normalize)
  {
    var elem := url.path;
    escaped := false;
    if url.rawPath != "" {
      var normalized := normalize(url.rawPath);
      if normalized.Some? {
        elem := normalized.value;
        escaped := '%' in elem;
      }
    }
    var cut := CutPrefix(elem, prefix);
    if cut.None? || |cut.value| == 0 {
      if cut.Some? { forall r { BelowSlash(cut.value, r); } }
      return NotFound, escaped;
    }
    var route := Walk(cut.value);
    if route.None? {
      return NotFound, escaped;
    }
    assert Routed(prefix, url, normalize, route.value);
    if verb == "GET" {
      return Handled(route.value), escaped;
    }
    return NotAllowed, escaped;
  }

  /** An argument as FindPath reports it: unescaped where it can be. */
  function Reported(arg: string): string {
    if Unescape(arg).Some? then Unescape(arg).value else arg
  }

  /** FindPath agrees with ServeHTTP on the operation, and reports the arguments
      unescaped whenever the URL has a raw path. */
  method FindPath(prefix: string, verb: string, url: Url, normalize: Normalizer) returns (found: Option<Route>)
    ensures found.Some? <==> verb == "GET" && exists r :: Routed(prefix, url, normalize, r)
    ensures found.Some? ==>
              exists r :: Routed(prefix, url, normalize, r) && found.value.operation == r.operation &&
                |found.value.args| == |r.args| &&
                forall i :: 0 <= i < |r.args| ==>
                  found.value.args[i] == if url.rawPath != "" then Reported(r.args[i]) else r.args[i]
  {
    var elem := url.path;
    if url.rawPath != "" {
      var normalized := normalize(url.rawPath);
      if normalized.Some? {
        elem := normalized.value;
      }
    }
    var cut := CutPrefix(elem, prefix);
    if cut.None? {
      return None;
    }
    var route := Walk(cut.value);
    if route.None? || verb != "GET" {
      return None;
    }
    assert Routed(prefix, url, normalize, route.value);
    found := route;
    if url.rawPath != "" {
      var args := route.value.args;
      for i := 0 to |args|
        invariant |args| == |route.value.args|
        invariant forall j :: 0 <= j < i ==> args[j] == Reported(route.value.args[j])
        invariant forall j :: i <= j < |args| ==> args[j] == route.value.args[j]
      {
        var unescaped := Unescape(args[i]);
        if unescaped.Some? {
          args := args[i := unescaped.value];
        }
      }
      found := Some(Route(route.value.operation, args));
    }
  }

  /** The route of a path is unique, so both entry points speak of the same one. */
  lemma RouteIsUnique(path: string, r: Route, s: Route)
    requires Answers(path, r) && Answers(path, s)
    ensures r == s
  {
    BelowSlash(path, r);
    BelowSlash(path, s);
    var elem := path[1..];
    if r.operation == GetOrganization || s.operation == GetOrganization {
      FirstLetter(elem, r);
      FirstLetter(elem, s);
      if |r.args| == 1 && |s.args| == 1 {
        assert elem[|ORGANIZATIONS|..] == r.args[0] && elem[|ORGANIZATIONS|..] == s.args[0];
        assert r.args == [r.args[0]] && s.args == [s.args[0]];
      }
    } else {
      assert r.operation != s.operation ==> HEALTH + LIVE == HEALTH + READY;
      assert (HEALTH + LIVE)[7] == 'l' && (HEALTH + READY)[7] == 'r';
    }
  }

  lemma FirstLetter(elem: string, r: Route)
    requires AnswersBelow(elem, r)
    ensures elem != "" && (elem[0] == 'a' <==> r.operation == GetOrganization)
  {
    assert ORGANIZATIONS[0] == 'a' && HEALTH[0] == 'h';
    if r.operation == GetLiveness { assert elem[0] == HEALTH[0]; }
    if r.operation == GetReadiness { assert elem[0] == HEALTH[0]; }
  }
}
