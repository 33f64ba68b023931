/** Printing of query parameters, and reading them back. */
module Query {
  import opened Wrappers
  import opened Text
  import opened Percent
  import opened PathSerializer

  /** The options in force for one parameter, defaults filled in. */
  datatype Options = Options(
    allowReserved: bool,
    arrayExplode: bool, arrayStyle: Style,
    objectExplode: bool, objectStyle: Style)

  const DEFAULT := Options(false, true, Form, true, DeepObject)

  type Parameters = map<string, Options>

  function OptionsFor(name: string, args: Options, parameters: Parameters): Options {
    if name in parameters then parameters[name] else args
  }

  function SerializeParameter(o: Options, name: string, value: Value): Result<string, Error> {
    match value
    case List(items) => SerializeArray(o.allowReserved, o.arrayExplode, name, o.arrayStyle, items)
    case Record(entries) => SerializeObject(o.allowReserved, o.objectExplode, name, o.objectStyle, entries)
    case Date(_, _) => Ok(SerializeDate(name, value, false))
    case _ => SerializePrimitive(o.allowReserved, name, value)
  }

  /** The non-empty parameter texts of the first `n` entries. */
  function SearchUpTo(args: Options, parameters: Parameters, query: seq<(string, Value)>, n: nat)
    : Result<seq<string>, Error>
    requires n <= |query|
  {
    if n == 0 then Ok([])
    else
      var before := SearchUpTo(args, parameters, query, n - 1);
      var (name, value) := query[n - 1];
      if before.Err? || value.Undefined? || value.Null? then before
      else
        var text := SerializeParameter(OptionsFor(name, args, parameters), name, value);
        if text.Err? then Err(text.error)
        else if text.value == "" then before
        else Ok(before.value + [text.value])
  }

  function Serialize(args: Options, parameters: Parameters, query: seq<(string, Value)>): Result<string, Error> {
    var search := SearchUpTo(args, parameters, query, |query|);
    if search.Err? then Err(search.error) else Ok(Join(search.value, "&"))
  }

  lemma {:induction false} SearchErrorStays(args: Options, parameters: Parameters, query: seq<(string, Value)>,
                                            n: nat, m: nat)
    requires n <= m <= |query| && SearchUpTo(args, parameters, query, n).Err?
    ensures SearchUpTo(args, parameters, query, m) == SearchUpTo(args, parameters, query, n)
  {
    if n < m { SearchErrorStays(args, parameters, query, n, m - 1); }
  }

  /** The function that `createQuerySerializer` returns. */
  method QuerySerializer(args: Options, parameters: Parameters, query: seq<(string, Value)>)
    returns (r: Result<string, Error>)
    ensures r == Serialize(args, parameters, query)
  {
    var search: seq<string> := [];
    for i := 0 to |query|
      invariant SearchUpTo(args, parameters, query, i) == Ok(search)
    {
      var (name, value) := query[i];
      if !value.Undefined? && !value.Null? {
        var serialized := SerializeParameter(OptionsFor(name, args, parameters), name, value);
        if serialized.Err? {
          SearchErrorStays(args, parameters, query, i + 1, |query|);
          return Err(serialized.error);
        }
        if serialized.value != "" {
          search := search + [serialized.value];
        }
      }
    }
    return Ok(Join(search, "&"));
  }

  // ----- reading a query -----

  function NonEmpty(parts: seq<string>): seq<string> {
    if parts == [] then []
    else NonEmpty(parts[..|parts| - 1]) + (if parts[|parts| - 1] == "" then [] else [parts[|parts| - 1]])
  }

  function Pieces(query: string): seq<string> {
    NonEmpty(Split(query, "&"))
  }

  /** One `name=value` piece, the value percent-decoded: names are printed as they are. */
  function ParsePair(piece: string): Option<(string, string)> {
    var i := IndexOf(piece, "=");
    if i < 0 then None
    else
      var value := Unescape(piece[i + 1..]);
      if value.Some? then Some((piece[..i], value.value)) else None
  }

  function ParsePairs(pieces: seq<string>): seq<Option<(string, string)>> {
    if pieces == [] then [] else ParsePairs(pieces[..|pieces| - 1]) + [ParsePair(pieces[|pieces| - 1])]
  }

  function Parse(query: string): seq<Option<(string, string)>> {
    ParsePairs(Pieces(query))
  }

  // ----- the pairs a query stands for -----

  /** The scalars among the values, under their names, as bytes. */
  function ScalarPairs(pairs: seq<(string, Value)>): seq<Option<(string, string)>> {
    if pairs == [] then []
    else
      var (name, value) := pairs[|pairs| - 1];
      ScalarPairs(pairs[..|pairs| - 1]) + (if value.Scalar? then [Some((name, Utf8(value.text)))] else [])
  }

  function PairsOf(o: Options, name: string, value: Value): seq<Option<(string, string)>> {
    match value
    case List(items) => ScalarPairs(Named(name, items))
    case Record(entries) => ScalarPairs(EntryNames(name, o.objectStyle, entries))
    case Date(iso, _) => [Some((name, iso))]
    case _ => ScalarPairs([(name, value)])
  }

  /** The flattened list: names in order, nulls dropped. */
  function FlatPairs(args: Options, parameters: Parameters, query: seq<(string, Value)>, n: nat)
    : seq<Option<(string, string)>>
    requires n <= |query|
  {
    if n == 0 then []
    else
      var (name, value) := query[n - 1];
      FlatPairs(args, parameters, query, n - 1) + PairsOf(OptionsFor(name, args, parameters), name, value)
  }

  /** The options print every scalar as a `name=value` piece of its own. */
  predicate Separates(o: Options, value: Value) {
    && !o.allowReserved
    && (value.List? ==> o.arrayExplode && o.arrayStyle !in {Label, Matrix, Simple})
    && (value.Record? ==>
          o.objectStyle == DeepObject || (o.objectExplode && o.objectStyle !in {Label, Matrix, Simple}))
  }

  /** A name that survives unencoded. */
  predicate PlainName(name: string) {
    '&' !in name && '=' !in name
  }

  predicate PlainEntry(name: string, value: Value) {
    && PlainName(name)
    && (value.Record? ==> forall i :: 0 <= i < |value.entries| ==> PlainName(value.entries[i].0))
    && (value.Date? ==> '&' !in value.iso && '%' !in value.iso)
  }

  // ----- splitting -----

  lemma {:induction false} NonEmptyAppend(a: seq<string>, b: seq<string>)
    ensures NonEmpty(a + b) == NonEmpty(a) + NonEmpty(b)
  {
    if b == [] {
      assert a + b == a;
    } else {
      var n := |b| - 1;
      NonEmptyAppend(a, b[..n]);
      assert (a + b)[..|a + b| - 1] == a + b[..n];
    }
  }

  lemma {:induction false} ParsePairsAppend(a: seq<string>, b: seq<string>)
    ensures ParsePairs(a + b) == ParsePairs(a) + ParsePairs(b)
  {
    if b == [] {
      assert a + b == a;
    } else {
      var n := |b| - 1;
      ParsePairsAppend(a, b[..n]);
      assert (a + b)[..|a + b| - 1] == a + b[..n];
    }
  }

  lemma ParseConcat(a: string, b: string)
    ensures Parse(a + "&" + b) == Parse(a) + Parse(b)
  {
    SplitConcat(a, '&', b);
    NonEmptyAppend(Split(a, "&"), Split(b, "&"));
    ParsePairsAppend(Pieces(a), Pieces(b));
  }

  lemma ParseEmpty()
    ensures Parse("") == []
  {
    assert Split("", "&") == [""];
    assert [""][..0] == [];
  }

  /** What the texts stand for, one after the other. */
  function ParseTexts(texts: seq<string>): seq<Option<(string, string)>> {
    if texts == [] then [] else ParseTexts(texts[..|texts| - 1]) + Parse(texts[|texts| - 1])
  }

  lemma {:induction false} JoinSnoc(texts: seq<string>, last: string)
    requires texts != []
    ensures Join(texts + [last], "&") == Join(texts, "&") + "&" + last
  {
    var all := texts + [last];
    assert all[1..] == texts[1..] + [last];
    if |texts| == 1 {
      assert all[1..] == [last];
    } else {
      JoinSnoc(texts[1..], last);
    }
  }

  lemma ParseTextsSnoc(texts: seq<string>, last: string)
    ensures ParseTexts(texts + [last]) == ParseTexts(texts) + Parse(last)
  {
    assert (texts + [last])[..|texts|] == texts;
  }

  lemma ParseOne(texts: seq<string>)
    requires |texts| == 1
    ensures Parse(Join(texts, "&")) == ParseTexts(texts)
  {
    assert texts[..0] == [];
  }

  lemma ParseJoinedMore(texts: seq<string>, last: string)
    requires texts != [] && Parse(Join(texts, "&")) == ParseTexts(texts)
    ensures Parse(Join(texts + [last], "&")) == ParseTexts(texts + [last])
  {
    JoinSnoc(texts, last);
    ParseTextsSnoc(texts, last);
    ParseConcat(Join(texts, "&"), last);
  }

  lemma {:induction false} ParseJoined(texts: seq<string>)
    ensures Parse(Join(texts, "&")) == ParseTexts(texts)
  {
    if |texts| == 0 {
      ParseEmpty();
    } else if |texts| == 1 {
      ParseOne(texts);
    } else {
      var n := |texts| - 1;
      ParseJoined(texts[..n]);
      assert texts == texts[..n] + [texts[n]];
      ParseJoinedMore(texts[..n], texts[n]);
    }
  }

  // ----- one piece -----

  lemma ParsePiece(name: string, value: string, bytes: string)
    requires PlainName(name) && '&' !in value && Unescape(value) == Some(bytes)
    ensures Parse(name + "=" + value) == [Some((name, bytes))]
  {
    var piece := name + "=" + value;
    CharAbsent(piece, '&');
    var none: seq<string> := [];
    assert Split(piece, "&") == [piece] && [piece][..0] == none;
    assert NonEmpty([piece]) == none + [piece];
    CharFirst(name, '=', value);
    assert piece[..|name|] == name && piece[|name| + 1..] == value;
    assert ParsePairs([piece]) == [ParsePair(piece)];
  }

  lemma OneScalarPair(name: string, value: Value)
    ensures ScalarPairs([(name, value)]) == if value.Scalar? then [Some((name, Utf8(value.text)))] else []
  {
    var one := [(name, value)];
    assert ScalarPairs(one[..0]) == [];
    assert one[..|one| - 1] == one[..0];
  }

  lemma ParseScalar(name: string, text: string)
    requires PlainName(name)
    ensures Parse(name + "=" + EncodeURIComponent(text)) == [Some((name, Utf8(text)))]
  {
    EncodedAlphabet(text);
    UnescapeEncoded(text);
    ParsePiece(name, EncodeURIComponent(text), Utf8(text));
  }

  lemma ParsePrimitive(name: string, value: Value)
    requires PlainName(name) && SerializePrimitive(false, name, value).Ok?
    ensures Parse(SerializePrimitive(false, name, value).value) == ScalarPairs([(name, value)])
  {
    OneScalarPair(name, value);
    if value.Scalar? {
      ParseScalar(name, value.text);
    } else {
      ParseEmpty();
    }
  }

  lemma {:induction false} ParsePrimitives(pairs: seq<(string, Value)>)
    requires forall i :: 0 <= i < |pairs| ==> PlainName(pairs[i].0)
    requires SerializePrimitives(false, pairs).Ok?
    ensures ParseTexts(SerializePrimitives(false, pairs).value) == ScalarPairs(pairs)
  {
    if pairs != [] {
      var (init, last) := (pairs[..|pairs| - 1], pairs[|pairs| - 1]);
      ParsePrimitives(init);
      ParsePrimitive(last.0, last.1);
      var texts := SerializePrimitives(false, init).value;
      var piece := SerializePrimitive(false, last.0, last.1).value;
      ParseTextsSnoc(texts, piece);
      OneScalarPair(last.0, last.1);
    }
  }

  lemma ParseParameter(o: Options, name: string, value: Value)
    requires PlainEntry(name, value) && Separates(o, value) && SerializeParameter(o, name, value).Ok?
    ensures Parse(SerializeParameter(o, name, value).value) == PairsOf(o, name, value)
  {
    match value
    case List(items) => ParseExploded(Named(name, items));
    case Record(entries) => ParseExploded(EntryNames(name, o.objectStyle, entries));
    case Date(iso, _) =>
      UnescapePlain(iso);
      ParsePiece(name, iso, iso);
    case _ => ParsePrimitive(name, value);
  }

  lemma ParseExploded(pairs: seq<(string, Value)>)
    requires forall i :: 0 <= i < |pairs| ==> PlainName(pairs[i].0)
    requires SerializePrimitives(false, pairs).Ok?
    ensures Parse("" + Join(SerializePrimitives(false, pairs).value, "&")) == ScalarPairs(pairs)
  {
    var texts := SerializePrimitives(false, pairs).value;
    ParsePrimitives(pairs);
    ParseJoined(texts);
    assert "" + Join(texts, "&") == Join(texts, "&");
  }

  function Add(texts: seq<string>, text: string): seq<string> {
    if text == "" then texts else texts + [text]
  }

  /** Leaving an empty text out loses nothing. */
  lemma ParseMore(before: seq<string>, text: string)
    ensures ParseTexts(Add(before, text)) == ParseTexts(before) + Parse(text)
  {
    if text == "" {
      ParseEmpty();
    } else {
      ParseTextsSnoc(before, text);
    }
  }

  /** The text of one parameter, empty for null and where printing throws. */
  function TextOf(o: Options, name: string, value: Value): string {
    var text := SerializeParameter(o, name, value);
    if value.Undefined? || value.Null? || text.Err? then "" else text.value
  }

  /** Printing the parameter does not throw, if it is printed at all. */
  predicate PrintsOrSkips(o: Options, name: string, value: Value) {
    value.Undefined? || value.Null? || SerializeParameter(o, name, value).Ok?
  }

  lemma TextParses(o: Options, name: string, value: Value)
    requires PlainEntry(name, value) && Separates(o, value) && PrintsOrSkips(o, name, value)
    ensures Parse(TextOf(o, name, value)) == PairsOf(o, name, value)
  {
    if value.Undefined? || value.Null? {
      OneScalarPair(name, value);
      ParseEmpty();
    } else {
      ParseParameter(o, name, value);
    }
  }

  lemma SearchNext(args: Options, parameters: Parameters, query: seq<(string, Value)>, n: nat)
    requires 0 < n <= |query| && SearchUpTo(args, parameters, query, n).Ok?
    ensures var (name, value) := query[n - 1];
            var o := OptionsFor(name, args, parameters);
            && SearchUpTo(args, parameters, query, n - 1).Ok?
            && SearchUpTo(args, parameters, query, n).value ==
               Add(SearchUpTo(args, parameters, query, n - 1).value, TextOf(o, name, value))
            && PrintsOrSkips(o, name, value)
  {
  }

  /** Every entry has names that survive unencoded, and options that print it piece by piece. */
  predicate Readable(args: Options, parameters: Parameters, query: seq<(string, Value)>) {
    forall i :: 0 <= i < |query| ==> ReadableEntry(args, parameters, query[i])
  }

  predicate ReadableEntry(args: Options, parameters: Parameters, entry: (string, Value)) {
    PlainEntry(entry.0, entry.1) && Separates(OptionsFor(entry.0, args, parameters), entry.1)
  }

  lemma {:induction false} ParseSearch(args: Options, parameters: Parameters, query: seq<(string, Value)>, n: nat)
    requires n <= |query| && Readable(args, parameters, query)
    requires SearchUpTo(args, parameters, query, n).Ok?
    ensures ParseTexts(SearchUpTo(args, parameters, query, n).value) == FlatPairs(args, parameters, query, n)
  {
    if n > 0 {
      var (name, value) := query[n - 1];
      var o := OptionsFor(name, args, parameters);
      SearchNext(args, parameters, query, n);
      ParseSearch(args, parameters, query, n - 1);
      assert ReadableEntry(args, parameters, query[n - 1]);
      TextParses(o, name, value);
      ParseMore(SearchUpTo(args, parameters, query, n - 1).value, TextOf(o, name, value));
    }
  }

  /** Reading a printed query gives the flattened list back, under any options that print it
      piece by piece, the defaults among them: scalars, array elements and object entries in
      order, nulls dropped. */
  lemma RoundTrip(args: Options, parameters: Parameters, query: seq<(string, Value)>)
    requires Readable(args, parameters, query) && Serialize(args, parameters, query).Ok?
    ensures Parse(Serialize(args, parameters, query).value) == FlatPairs(args, parameters, query, |query|)
  {
    ParseSearch(args, parameters, query, |query|);
    ParseJoined(SearchUpTo(args, parameters, query, |query|).value);
  }

  /** What a query stands for by default: arrays repeat the name, and the entries of an object
      stand under `name[key]`. */
  function DefaultPairs(query: seq<(string, Value)>): seq<Option<(string, string)>> {
    if query == [] then []
    else
      var (name, value) := query[|query| - 1];
      DefaultPairs(query[..|query| - 1]) +
      match value
      case List(items) => ScalarPairs(Named(name, items))
      case Record(entries) => BracketPairs(name, entries)
      case Date(iso, _) => [Some((name, iso))]
      case Scalar(text) => [Some((name, Utf8(text)))]
      case _ => []
  }

  function BracketPairs(name: string, entries: seq<(string, Value)>): seq<Option<(string, string)>> {
    if entries == [] then []
    else
      var (key, value) := entries[|entries| - 1];
      BracketPairs(name, entries[..|entries| - 1]) +
      if value.Scalar? then [Some((name + "[" + key + "]", Utf8(value.text)))] else []
  }

  lemma {:induction false} BracketsByDefault(name: string, entries: seq<(string, Value)>)
    ensures ScalarPairs(EntryNames(name, DEFAULT.objectStyle, entries)) == BracketPairs(name, entries)
  {
    if entries != [] {
      var n := |entries| - 1;
      BracketsByDefault(name, entries[..n]);
      var pairs := EntryNames(name, DEFAULT.objectStyle, entries);
      assert pairs[..n] == EntryNames(name, DEFAULT.objectStyle, entries[..n]);
      assert pairs[n] == (name + "[" + entries[n].0 + "]", entries[n].1);
    }
  }

  lemma {:induction false} FlatByDefault(query: seq<(string, Value)>, n: nat)
    requires n <= |query|
    ensures FlatPairs(DEFAULT, map[], query, n) == DefaultPairs(query[..n])
  {
    if n > 0 {
      FlatByDefault(query, n - 1);
      assert query[..n][..n - 1] == query[..n - 1];
      var (name, value) := query[n - 1];
      OneScalarPair(name, value);
      if value.Record? { BracketsByDefault(name, value.entries); }
    }
  }

  lemma DefaultReadable(query: seq<(string, Value)>)
    requires forall i :: 0 <= i < |query| ==> PlainEntry(query[i].0, query[i].1)
    ensures Readable(DEFAULT, map[], query)
  {
    forall i | 0 <= i < |query| ensures ReadableEntry(DEFAULT, map[], query[i]) {
      assert Separates(DEFAULT, query[i].1);
    }
  }

  /** With the default options it is enough that names and dates do not look like separators. */
  lemma DefaultRoundTrip(query: seq<(string, Value)>)
    requires forall i :: 0 <= i < |query| ==> PlainEntry(query[i].0, query[i].1)
    requires Serialize(DEFAULT, map[], query).Ok?
    ensures Parse(Serialize(DEFAULT, map[], query).value) == DefaultPairs(query)
  {
    DefaultReadable(query);
    RoundTrip(DEFAULT, map[], query);
    FlatByDefault(query, |query|);
    assert query[..|query|] == query;
  }

  /** A reader that decodes names as well sees the same name exactly when it has no `%`. */
  lemma NameSurvivesDecoding(name: string)
    ensures Unescape(name) == Some(name) <==> '%' !in name
  {
    UnescapeKeeps(name);
  }

  // ----- whose options are in force -----

  /** A parameter listed by name is printed by its own options and no others, any other one by
      the common options: where they all come to the same, the table can be left out. */
  lemma {:induction false} OptionsDecide(args: Options, parameters: Parameters, query: seq<(string, Value)>, n: nat,
                                         o: Options)
    requires n <= |query|
    requires forall i :: 0 <= i < n && query[i].0 in parameters ==> parameters[query[i].0] == o
    requires forall i :: 0 <= i < n && query[i].0 !in parameters ==> args == o
    ensures SearchUpTo(args, parameters, query, n) == SearchUpTo(o, map[], query, n)
  {
    if n > 0 { OptionsDecide(args, parameters, query, n - 1, o); }
  }

  // ----- when printing throws -----

  /** Pieces are printed one by one, and one of them is not a scalar. */
  predicate Nests(o: Options, value: Value) {
    match value
    case List(items) =>
      o.arrayExplode && o.arrayStyle !in {Label, Simple} && exists i :: 0 <= i < |items| && !IsScalar(items[i])
    case Record(entries) =>
      (o.objectStyle == DeepObject || o.objectExplode) && exists i :: 0 <= i < |entries| && !IsScalar(entries[i].1)
    case _ => false
  }

  lemma PrintsExactly(o: Options, name: string, value: Value)
    ensures PrintsOrSkips(o, name, value) <==> !Nests(o, value)
  {
    match value
    case List(items) => PrimitivesThrow(o.allowReserved, Named(name, items));
    case Record(entries) => PrimitivesThrow(o.allowReserved, EntryNames(name, o.objectStyle, entries));
    case _ =>
  }

  /** Printing throws exactly when some value that is printed piece by piece is nested. */
  lemma {:induction false} ThrowsExactly(args: Options, parameters: Parameters, query: seq<(string, Value)>, n: nat)
    requires n <= |query|
    ensures SearchUpTo(args, parameters, query, n).Ok? <==>
            forall i :: 0 <= i < n ==> !Nests(OptionsFor(query[i].0, args, parameters), query[i].1)
  {
    if n > 0 {
      ThrowsExactly(args, parameters, query, n - 1);
      var (name, value) := query[n - 1];
      PrintsExactly(OptionsFor(name, args, parameters), name, value);
    }
  }
}
