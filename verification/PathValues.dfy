/** What the text put into a placeholder says: reading it gives the value back. */
module PathValues {
  import opened Wrappers
  import opened Text
  import opened Percent
  import opened PathSerializer
  import opened PathTemplate

  // ----- placeholders -----

  /** How a template writes a placeholder. */
  function PlaceholderText(p: Placeholder): string {
    StyleSign(p.style) + p.name + if p.explode then "*" else ""
  }

  /** A style that placeholders know, and a name that says neither style nor explosion. */
  predicate IsPlain(p: Placeholder) {
    && p.style in {Simple, Label, Matrix} && p.name != ""
    && p.name[0] !in ".;" && p.name[|p.name| - 1] != '*'
  }

  function StyleSign(style: Style): string {
    match style
    case Label => "."
    case Matrix => ";"
    case _ => ""
  }

  lemma StartsWith(s: string)
    ensures "." <= s <==> s != "" && s[0] == '.'
    ensures ";" <= s <==> s != "" && s[0] == ';'
  {
  }

  /** A name without a star at its end, behind its style's sign. */
  lemma SignReadsBack(style: Style, name: string)
    requires IsPlain(Placeholder(false, style, name))
    ensures ParsePlaceholder(StyleSign(style) + name) == Placeholder(false, style, name)
  {
    var inner := StyleSign(style) + name;
    StartsWith(inner);
    assert inner[|inner| - 1] == name[|name| - 1];
    if style == Simple {
      assert inner == name;
      assert name[0] != '.' && name[0] != ';';
    } else {
      assert inner[1..] == name && inner[0] == StyleSign(style)[0];
    }
  }

  lemma StarReadsBack(inner: string, style: Style, name: string)
    requires ParsePlaceholder(inner) == Placeholder(false, style, name)
    ensures ParsePlaceholder(inner + "*") == Placeholder(true, style, name)
  {
    assert (inner + "*")[..|inner|] == inner;
  }

  lemma PlaceholderReadsBack(p: Placeholder)
    requires IsPlain(p)
    ensures ParsePlaceholder(PlaceholderText(p)) == p
  {
    var signed := StyleSign(p.style) + p.name;
    SignReadsBack(p.style, p.name);
    StarReadsBack(signed, p.style, p.name);
    assert signed + "" == signed;
  }

  // ----- reading encoded text -----

  lemma EncodedAvoids(text: string, c: char)
    requires !IsEncodedChar(c)
    ensures c !in EncodeURIComponent(text)
  {
    EncodedAlphabet(text);
  }

  lemma Separators()
    ensures !IsEncodedChar(',') && !IsEncodedChar(';') && !IsEncodedChar('=')
  {
  }

  lemma {:induction false} EscapesHoldNoDot(bytes: string)
    requires IsBytes(bytes)
    ensures '.' !in EscapeAll(bytes)
  {
    if bytes != "" { EscapesHoldNoDot(bytes[1..]); }
  }

  /** A dot is written as it is, so encoded text holds one exactly when the text does. */
  lemma {:induction false} DotsStay(text: string)
    ensures '.' in EncodeURIComponent(text) <==> '.' in text
  {
    if text != "" {
      DotsStay(text[1..]);
      Utf8CharIsBytes(text[0]);
      EscapesHoldNoDot(Utf8Char(text[0]));
      assert '.' in text <==> text[0] == '.' || '.' in text[1..];
    }
  }

  /** The characters that separate what stands in one placeholder. */
  predicate IsSeparator(c: char) {
    c in ",.;"
  }

  /** Encoded, the text cannot be taken for two. */
  predicate StaysWhole(text: string, c: char) {
    c != '.' || '.' !in text
  }

  lemma EncodedStaysWhole(text: string, c: char)
    requires IsSeparator(c)
    ensures c !in EncodeURIComponent(text) <==> StaysWhole(text, c)
  {
    Separators();
    if c == '.' { DotsStay(text); } else { EncodedAvoids(text, c); }
  }

  // ----- lists -----

  lemma {:induction false} WrittenLength(items: seq<Value>)
    ensures |WrittenAll(false, items)| == |items|
  {
    if items != [] { WrittenLength(items[..|items| - 1]); }
  }

  lemma {:induction false} WrittenAt(items: seq<Value>, k: nat)
    requires k < |items|
    ensures k < |WrittenAll(false, items)| && WrittenAll(false, items)[k] == EncodeURIComponent(ToText(items[k]))
  {
    var n := |items| - 1;
    var init := WrittenAll(false, items[..n]);
    WrittenLength(items[..n]);
    assert WrittenAll(false, items) == init + [Written(false, items[n])];
    if k < n { WrittenAt(items[..n], k); }
  }

  /** The pieces say the items, one by one and in order. */
  predicate Says(pieces: seq<string>, items: seq<Value>) {
    |pieces| == |items| &&
    forall k :: 0 <= k < |items| ==> Unescape(pieces[k]) == Some(Utf8(ToText(items[k])))
  }

  lemma WrittenSays(items: seq<Value>, c: char)
    requires items != [] && IsSeparator(c)
    ensures Says(WrittenAll(false, items), items)
    ensures (forall p :: p in WrittenAll(false, items) ==> c !in p) <==>
            forall k :: 0 <= k < |items| ==> StaysWhole(ToText(items[k]), c)
  {
    var pieces := WrittenAll(false, items);
    WrittenLength(items);
    forall k | 0 <= k < |items|
      ensures Unescape(pieces[k]) == Some(Utf8(ToText(items[k])))
      ensures c !in pieces[k] <==> StaysWhole(ToText(items[k]), c)
    {
      WrittenAt(items, k);
      UnescapeEncoded(ToText(items[k]));
      EncodedStaysWhole(ToText(items[k]), c);
    }
  }

  /** Splitting at the separator gives the items back exactly when none of them, encoded,
      holds it: commas never occur, dots may. */
  lemma ListReadsBack(items: seq<Value>, c: char)
    requires items != [] && IsSeparator(c)
    ensures Says(Split(Join(WrittenAll(false, items), [c]), [c]), items) <==>
            forall k :: 0 <= k < |items| ==> StaysWhole(ToText(items[k]), c)
  {
    WrittenSays(items, c);
    WrittenLength(items);
    SplitOfJoin(WrittenAll(false, items), c);
    SplitUndoesJoinExactly(WrittenAll(false, items), c);
  }

  // ----- names and values in pairs -----

  /** The piece says the value under its name; nothing stands for undefined and null. */
  predicate SaysPair(piece: string, pair: (string, Value)) {
    var (name, value) := pair;
    if value.Scalar? then
      name + "=" <= piece && Unescape(piece[|name| + 1..]) == Some(Utf8(value.text))
    else piece == ""
  }

  predicate SaysPairs(pieces: seq<string>, pairs: seq<(string, Value)>) {
    |pieces| == |pairs| && forall k :: 0 <= k < |pairs| ==> SaysPair(pieces[k], pairs[k])
  }

  predicate AllScalar(pairs: seq<(string, Value)>) {
    forall k :: 0 <= k < |pairs| ==> IsScalar(pairs[k].1)
  }

  predicate PairStaysWhole(pair: (string, Value), c: char) {
    pair.1.Scalar? ==> c !in pair.0 && StaysWhole(pair.1.text, c)
  }

  lemma PrimitiveSays(pair: (string, Value), c: char)
    requires IsScalar(pair.1) && IsSeparator(c)
    ensures var piece := SerializePrimitive(false, pair.0, pair.1);
            && piece.Ok? && SaysPair(piece.value, pair)
            && (c !in piece.value <==> PairStaysWhole(pair, c))
  {
    var (name, value) := pair;
    if value.Scalar? {
      var e := EncodeURIComponent(value.text);
      UnescapeEncoded(value.text);
      EncodedStaysWhole(value.text, c);
      var piece := name + "=" + e;
      assert piece[|name| + 1..] == e;
      assert c in piece <==> c in name || c in e;
    }
  }

  lemma {:induction false} PrimitiveAt(pairs: seq<(string, Value)>, k: nat)
    requires k < |pairs| && SerializePrimitives(false, pairs).Ok?
    ensures |SerializePrimitives(false, pairs).value| == |pairs|
    ensures Ok(SerializePrimitives(false, pairs).value[k]) == SerializePrimitive(false, pairs[k].0, pairs[k].1)
  {
    var n := |pairs| - 1;
    if n > 0 { PrimitiveAt(pairs[..n], if k < n then k else 0); }
  }

  lemma PrimitivesSay(pairs: seq<(string, Value)>, c: char)
    requires IsSeparator(c) && pairs != [] && AllScalar(pairs)
    ensures var pieces := SerializePrimitives(false, pairs);
            && pieces.Ok? && SaysPairs(pieces.value, pairs)
            && forall k :: 0 <= k < |pairs| ==> (c !in pieces.value[k] <==> PairStaysWhole(pairs[k], c))
  {
    PrimitivesThrow(false, pairs);
    PrimitiveAt(pairs, 0);
    var pieces := SerializePrimitives(false, pairs).value;
    forall k | 0 <= k < |pairs|
      ensures SaysPair(pieces[k], pairs[k]) && (c !in pieces[k] <==> PairStaysWhole(pairs[k], c))
    {
      PrimitiveAt(pairs, k);
      PrimitiveSays(pairs[k], c);
    }
  }

  lemma PairsReadBack(pairs: seq<(string, Value)>, c: char)
    requires pairs != [] && IsSeparator(c) && AllScalar(pairs)
    ensures var pieces := SerializePrimitives(false, pairs);
            && pieces.Ok?
            && (SaysPairs(Split(Join(pieces.value, [c]), [c]), pairs) <==>
                 forall k :: 0 <= k < |pairs| ==> PairStaysWhole(pairs[k], c))
  {
    PrimitivesSay(pairs, c);
    var pieces := SerializePrimitives(false, pairs).value;
    SplitOfJoin(pieces, c);
    SplitUndoesJoinExactly(pieces, c);
  }

  // ----- keys and values in turn -----

  predicate SaysInTurn(pieces: seq<string>, entries: seq<(string, Value)>) {
    |pieces| == 2 * |entries| &&
    forall k :: 0 <= k < |entries| ==>
      pieces[2 * k] == entries[k].0 && Unescape(pieces[2 * k + 1]) == Some(Utf8(ToText(entries[k].1)))
  }

  lemma {:induction false} FlattenedLength(entries: seq<(string, Value)>)
    ensures |Flattened(false, entries)| == 2 * |entries|
  {
    if entries != [] { FlattenedLength(entries[..|entries| - 1]); }
  }

  lemma FlattenedSnoc(entries: seq<(string, Value)>)
    requires entries != []
    ensures var (n, last) := (|entries| - 1, entries[|entries| - 1]);
            Flattened(false, entries) == Flattened(false, entries[..n]) + [last.0, EncodeURIComponent(ToText(last.1))]
  {
  }

  lemma {:induction false} FlattenedAt(entries: seq<(string, Value)>, k: nat)
    requires k < |entries|
    ensures 2 * k + 1 < |Flattened(false, entries)|
    ensures Flattened(false, entries)[2 * k] == entries[k].0
    ensures Flattened(false, entries)[2 * k + 1] == EncodeURIComponent(ToText(entries[k].1))
  {
    FlattenedLength(entries[..|entries| - 1]);
    FlattenedSnoc(entries);
    if k < |entries| - 1 { FlattenedAt(entries[..|entries| - 1], k); }
  }

  lemma FlattenedSays(entries: seq<(string, Value)>)
    ensures SaysInTurn(Flattened(false, entries), entries)
  {
    FlattenedLength(entries);
    forall k | 0 <= k < |entries|
      ensures Flattened(false, entries)[2 * k] == entries[k].0
      ensures Unescape(Flattened(false, entries)[2 * k + 1]) == Some(Utf8(ToText(entries[k].1)))
    {
      FlattenedAt(entries, k);
      UnescapeEncoded(ToText(entries[k].1));
    }
  }

  /** Only keys can bring a comma in. */
  lemma CommasOfKeys(entries: seq<(string, Value)>, i: nat)
    requires i < |Flattened(false, entries)|
    ensures i / 2 < |entries| && (',' in Flattened(false, entries)[i] ==> ',' in entries[i / 2].0)
  {
    FlattenedLength(entries);
    FlattenedAt(entries, i / 2);
    Separators();
    EncodedAvoids(ToText(entries[i / 2].1), ',');
    assert i == 2 * (i / 2) || i == 2 * (i / 2) + 1;
  }

  lemma CommaFree(entries: seq<(string, Value)>)
    ensures (forall p :: p in Flattened(false, entries) ==> ',' !in p) <==>
            forall k :: 0 <= k < |entries| ==> ',' !in entries[k].0
  {
    var pieces := Flattened(false, entries);
    if forall k :: 0 <= k < |entries| ==> ',' !in entries[k].0 {
      forall i | 0 <= i < |pieces| ensures ',' !in pieces[i] { CommasOfKeys(entries, i); }
    }
    if forall p :: p in pieces ==> ',' !in p {
      forall k | 0 <= k < |entries| ensures ',' !in entries[k].0 {
        FlattenedAt(entries, k);
        assert pieces[2 * k] in pieces;
      }
    }
  }

  lemma EntriesReadBack(entries: seq<(string, Value)>)
    requires entries != []
    ensures SaysInTurn(Split(Join(Flattened(false, entries), ","), ","), entries) <==>
            forall k :: 0 <= k < |entries| ==> ',' !in entries[k].0
  {
    var pieces := Flattened(false, entries);
    FlattenedSays(entries);
    CommaFree(entries);
    FlattenedLength(entries);
    SplitOfJoin(pieces, ',');
    SplitUndoesJoinExactly(pieces, ',');
  }

  // ----- what a placeholder is replaced by -----

  /** The text before the value or values. */
  function LeadOf(p: Placeholder, value: Value): string {
    var grouped := p.explode && (value.List? || value.Record?);
    match p.style
    case Label => "."
    case Matrix => if grouped then ";" else ";" + p.name + "="
    case _ => ""
  }

  function SeparatorOf(p: Placeholder): char {
    if p.explode && p.style == Label then '.' else if p.explode && p.style == Matrix then ';' else ','
  }

  predicate ReadsPieces(p: Placeholder, value: Value, pieces: seq<string>)
    requires value.List? || value.Record?
  {
    match value
    case List(items) =>
      if p.explode && p.style == Matrix then SaysPairs(pieces, Named(p.name, items)) else Says(pieces, items)
    case Record(entries) => if p.explode then SaysPairs(pieces, entries) else SaysInTurn(pieces, entries)
  }

  predicate IsEmpty(value: Value) {
    value == List([]) || value == Record([])
  }

  /** What stands behind the lead says the value: a scalar decodes to its bytes, and what is
      separated by the separator says the items, or the entries, in order. */
  predicate Reads(p: Placeholder, value: Value, t: string) {
    var lead := LeadOf(p, value);
    if value.Date? then t == value.iso
    else if !(lead <= t) then false
    else if IsEmpty(value) then t == lead
    else
      var rest := t[|lead|..];
      match value
      case Scalar(text) => Unescape(rest) == Some(Utf8(text))
      case List(_) => ReadsPieces(p, value, Split(rest, [SeparatorOf(p)]))
      case Record(_) => ReadsPieces(p, value, Split(rest, [SeparatorOf(p)]))
      case _ => false
  }

  /** What a caller can check before the call: nothing that is written unencoded holds the
      separator, and with dots between them no value holds a dot. */
  predicate IsReadable(p: Placeholder, value: Value) {
    var c := SeparatorOf(p);
    match value
    case List(items) =>
      if p.explode && p.style == Matrix
      then forall k :: 0 <= k < |items| ==> PairStaysWhole((p.name, items[k]), c)
      else forall k :: 0 <= k < |items| ==> StaysWhole(ToText(items[k]), c)
    case Record(entries) =>
      if p.explode then forall k :: 0 <= k < |entries| ==> PairStaysWhole(entries[k], c)
      else forall k :: 0 <= k < |entries| ==> ',' !in entries[k].0
    case _ => true
  }

  /** Something is nested in what is printed pair by pair. */
  predicate IsTooDeep(p: Placeholder, value: Value) {
    match value
    case List(items) => p.explode && p.style == Matrix && !AllScalar(Named(p.name, items))
    case Record(entries) => p.explode && !AllScalar(entries)
    case _ => false
  }

  lemma LeadTakenOff(lead: string, rest: string)
    ensures lead <= lead + rest && (lead + rest)[|lead|..] == rest
    ensures "" + rest == rest && lead + "" == lead
  {
  }

  predicate IsPathStyle(style: Style) {
    style in {Simple, Label, Matrix}
  }

  lemma DotEncoded(text: string)
    ensures EncodeURIComponent("." + text) == "." + EncodeURIComponent(text)
  {
    assert IsUnescaped('.');
    assert ("." + text)[1..] == text;
  }

  lemma ScalarIs(path: map<string, Value>, p: Placeholder, inner: string, text: string)
    requires ParsePlaceholder(inner) == p && IsPathStyle(p.style) && p.name in path && path[p.name] == Scalar(text)
    ensures Replacement(path, inner) == Ok(Some(LeadOf(p, Scalar(text)) + EncodeURIComponent(text)))
  {
    LeadTakenOff("", EncodeURIComponent(text));
    DotEncoded(text);
  }

  lemma ScalarReads(p: Placeholder, text: string)
    ensures Reads(p, Scalar(text), LeadOf(p, Scalar(text)) + EncodeURIComponent(text))
  {
    UnescapeEncoded(text);
    LeadTakenOff(LeadOf(p, Scalar(text)), EncodeURIComponent(text));
  }

  lemma ReadsBehind(p: Placeholder, value: Value, rest: string)
    requires value.List? || value.Record?
    ensures Reads(p, value, LeadOf(p, value) + rest) <==>
            if IsEmpty(value) then rest == "" else ReadsPieces(p, value, Split(rest, [SeparatorOf(p)]))
  {
    LeadTakenOff(LeadOf(p, value), rest);
  }

  lemma NamedListReads(p: Placeholder, items: seq<Value>)
    requires p.style == Matrix && p.explode && AllScalar(Named(p.name, items))
    ensures var pieces := SerializePrimitives(false, Named(p.name, items));
            && pieces.Ok?
            && (Reads(p, List(items), ";" + Join(pieces.value, ";")) <==> IsReadable(p, List(items)))
  {
    var pairs := Named(p.name, items);
    PrimitivesThrow(false, pairs);
    ReadsBehind(p, List(items), Join(SerializePrimitives(false, pairs).value, ";"));
    if items != [] { PairsReadBack(pairs, ';'); }
  }

  lemma BareListReads(p: Placeholder, items: seq<Value>)
    requires IsPathStyle(p.style) && !(p.style == Matrix && p.explode)
    ensures var joined := Join(WrittenAll(false, items), [SeparatorOf(p)]);
            Reads(p, List(items), LeadOf(p, List(items)) + joined) <==> IsReadable(p, List(items))
  {
    ReadsBehind(p, List(items), Join(WrittenAll(false, items), [SeparatorOf(p)]));
    if items != [] { ListReadsBack(items, SeparatorOf(p)); }
  }

  lemma BareListIs(p: Placeholder, items: seq<Value>)
    requires IsPathStyle(p.style) && !(p.style == Matrix && p.explode)
    ensures SerializeArray(false, p.explode, p.name, p.style, items) ==
            Ok(LeadOf(p, List(items)) + Join(WrittenAll(false, items), [SeparatorOf(p)]))
  {
    var joined := Join(WrittenAll(false, items), [SeparatorOf(p)]);
    LeadTakenOff("", joined);
  }

  lemma ListReads(p: Placeholder, items: seq<Value>)
    requires IsPathStyle(p.style)
    ensures var t := SerializeArray(false, p.explode, p.name, p.style, items);
            && (t.Err? <==> IsTooDeep(p, List(items)))
            && (t.Ok? ==> (Reads(p, List(items), t.value) <==> IsReadable(p, List(items))))
  {
    if !(p.explode && p.style == Matrix) {
      BareListIs(p, items);
      BareListReads(p, items);
    } else {
      PrimitivesThrow(false, Named(p.name, items));
      if AllScalar(Named(p.name, items)) { NamedListReads(p, items); }
    }
  }

  lemma ExplodedRecordReads(p: Placeholder, entries: seq<(string, Value)>)
    requires IsPathStyle(p.style) && p.explode && AllScalar(entries)
    ensures var pieces := SerializePrimitives(false, entries);
            && pieces.Ok?
            && (Reads(p, Record(entries), LeadOf(p, Record(entries)) + Join(pieces.value, [SeparatorOf(p)])) <==>
                IsReadable(p, Record(entries)))
  {
    PrimitivesThrow(false, entries);
    ReadsBehind(p, Record(entries), Join(SerializePrimitives(false, entries).value, [SeparatorOf(p)]));
    if entries != [] { PairsReadBack(entries, SeparatorOf(p)); }
  }

  lemma ExplodedRecordIs(p: Placeholder, entries: seq<(string, Value)>)
    requires IsPathStyle(p.style) && p.explode
    ensures var pieces := SerializePrimitives(false, entries);
            SerializeObject(false, true, p.name, p.style, entries) ==
            if pieces.Err? then Err(pieces.error)
            else Ok(LeadOf(p, Record(entries)) + Join(pieces.value, [SeparatorOf(p)]))
  {
    assert EntryNames(p.name, p.style, entries) == entries;
  }

  lemma FlatRecordReads(p: Placeholder, entries: seq<(string, Value)>)
    requires IsPathStyle(p.style) && !p.explode
    ensures Reads(p, Record(entries), LeadOf(p, Record(entries)) + Join(Flattened(false, entries), ",")) <==>
            IsReadable(p, Record(entries))
  {
    ReadsBehind(p, Record(entries), Join(Flattened(false, entries), ","));
    if entries != [] { EntriesReadBack(entries); }
  }

  lemma FlatRecordIs(p: Placeholder, entries: seq<(string, Value)>)
    requires IsPathStyle(p.style) && !p.explode
    ensures SerializeObject(false, false, p.name, p.style, entries) ==
            Ok(LeadOf(p, Record(entries)) + Join(Flattened(false, entries), ","))
  {
    LeadTakenOff("", Join(Flattened(false, entries), ","));
  }

  lemma RecordReads(p: Placeholder, entries: seq<(string, Value)>)
    requires IsPathStyle(p.style)
    ensures var t := SerializeObject(false, p.explode, p.name, p.style, entries);
            && (t.Err? <==> IsTooDeep(p, Record(entries)))
            && (t.Ok? ==> (Reads(p, Record(entries), t.value) <==> IsReadable(p, Record(entries))))
  {
    if p.explode {
      ExplodedRecordIs(p, entries);
      PrimitivesThrow(false, entries);
      if AllScalar(entries) { ExplodedRecordReads(p, entries); }
    } else {
      FlatRecordIs(p, entries);
      FlatRecordReads(p, entries);
    }
  }

  /** A placeholder is left in place for undefined and null, throws exactly when it is to print
      something nested pair by pair, and is otherwise replaced by a text from which the value
      can be read back exactly when nothing in it can be taken for a separator. */
  lemma ReplacementReadsBack(path: map<string, Value>, p: Placeholder)
    requires IsPlain(p)
    ensures var value := if p.name in path then path[p.name] else Undefined;
            var r := Replacement(path, PlaceholderText(p));
            && (r.Ok? && r.value.None? <==> value.Undefined? || value.Null?)
            && (r.Err? <==> IsTooDeep(p, value))
            && (r.Ok? && r.value.Some? ==> (Reads(p, value, r.value.value) <==> IsReadable(p, value)))
  {
    PlaceholderReadsBack(p);
    var value := if p.name in path then path[p.name] else Undefined;
    match value
    case Scalar(text) =>
      ScalarIs(path, p, PlaceholderText(p), text);
      ScalarReads(p, text);
    case List(items) => ListReads(p, items);
    case Record(entries) => RecordReads(p, entries);
    case _ =>
  }
}
