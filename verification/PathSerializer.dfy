/** Serialisation of scalars, arrays and objects into URL text. */
module PathSerializer {
  import opened Wrappers
  import opened Text
  import opened Percent

  /** A JavaScript value, as far as serialisation tells values apart. A scalar
      carries its `String(value)`; a date its ISO text and its `String(value)`. */
  datatype Value =
    | Undefined
    | Null
    | Scalar(text: string)
    | List(items: seq<Value>)
    | Record(entries: seq<(string, Value)>)
    | Date(iso: string, text: string)

  datatype Style = Form | SpaceDelimited | PipeDelimited | DeepObject | Label | Matrix | Simple

  datatype Error = NestedValue

  /** `String(value)` */
  function ToText(v: Value): string
    decreases v, 1
  {
    match v
    case Undefined => "undefined"
    case Null => "null"
    case Scalar(text) => text
    case List(items) => JoinTexts(items)
    case Record(_) => "[object Object]"
    case Date(_, text) => text
  }

  /** What `Array.prototype.join` writes for one element. */
  function ElementText(v: Value): string
    decreases v, 2
  {
    if v.Undefined? || v.Null? then "" else ToText(v)
  }

  function JoinTexts(items: seq<Value>): string
    decreases items, 0
  {
    if |items| == 0 then ""
    else if |items| == 1 then ElementText(items[0])
    else ElementText(items[0]) + "," + JoinTexts(items[1..])
  }

  /** The separator between exploded parts, for arrays and objects alike. */
  function ExplodeSeparator(style: Style): string {
    match style
    case Label => "."
    case Matrix => ";"
    case Simple => ","
    case _ => "&"
  }

  function NoExplodeSeparator(style: Style): string {
    match style
    case PipeDelimited => "|"
    case SpaceDelimited => "%20"
    case _ => ","
  }

  function Written(allowReserved: bool, v: Value): string {
    if allowReserved then ElementText(v) else EncodeURIComponent(ToText(v))
  }

  function WrittenAll(allowReserved: bool, items: seq<Value>): seq<string> {
    if items == [] then []
    else WrittenAll(allowReserved, items[..|items| - 1]) + [Written(allowReserved, items[|items| - 1])]
  }

  function SerializePrimitive(allowReserved: bool, name: string, value: Value): Result<string, Error> {
    if value.Undefined? || value.Null? then Ok("")
    else if !value.Scalar? then Err(NestedValue)
    else Ok(name + "=" + (if allowReserved then value.text else EncodeURIComponent(value.text)))
  }

  /** The pieces of an exploded array or object; the first nested value throws. */
  function SerializePrimitives(allowReserved: bool, pairs: seq<(string, Value)>): Result<seq<string>, Error> {
    if pairs == [] then Ok([])
    else
      var init := SerializePrimitives(allowReserved, pairs[..|pairs| - 1]);
      var last := pairs[|pairs| - 1];
      if init.Err? then init
      else
        var piece := SerializePrimitive(allowReserved, last.0, last.1);
        if piece.Err? then Err(piece.error) else Ok(init.value + [piece.value])
  }

  /** Nothing is nested. */
  predicate IsScalar(value: Value) {
    value.Undefined? || value.Null? || value.Scalar?
  }

  lemma {:induction false} PrimitivesThrow(allowReserved: bool, pairs: seq<(string, Value)>)
    ensures SerializePrimitives(allowReserved, pairs).Ok? <==> forall i :: 0 <= i < |pairs| ==> IsScalar(pairs[i].1)
  {
    if pairs != [] { PrimitivesThrow(allowReserved, pairs[..|pairs| - 1]); }
  }

  function Named(name: string, items: seq<Value>): (pairs: seq<(string, Value)>)
    ensures |pairs| == |items| && forall i :: 0 <= i < |items| ==> pairs[i] == (name, items[i])
  {
    seq(|items|, i requires 0 <= i < |items| => (name, items[i]))
  }

  function SerializeArray(allowReserved: bool, explode: bool, name: string, style: Style, items: seq<Value>)
    : Result<string, Error>
  {
    if !explode then
      var joined := Join(WrittenAll(allowReserved, items), NoExplodeSeparator(style));
      Ok(match style
         case Label => "." + joined
         case Matrix => ";" + name + "=" + joined
         case Simple => joined
         case _ => name + "=" + joined)
    else
      var separator := ExplodeSeparator(style);
      var pieces := if style.Label? || style.Simple? then Ok(WrittenAll(allowReserved, items))
                    else SerializePrimitives(allowReserved, Named(name, items));
      if pieces.Err? then Err(pieces.error)
      else Ok((if style.Label? || style.Matrix? then separator else "") + Join(pieces.value, separator))
  }

  /** Keys and values in turn, as the un-exploded object form lists them. */
  function Flattened(allowReserved: bool, entries: seq<(string, Value)>): seq<string> {
    if entries == [] then []
    else
      var (key, v) := entries[|entries| - 1];
      Flattened(allowReserved, entries[..|entries| - 1]) + [key, Written(allowReserved, v)]
  }

  /** The names under which an exploded object's entries are written. */
  function EntryNames(name: string, style: Style, entries: seq<(string, Value)>): (pairs: seq<(string, Value)>)
    ensures |pairs| == |entries|
    ensures forall i :: 0 <= i < |entries| ==>
              pairs[i] == (if style.DeepObject? then name + "[" + entries[i].0 + "]" else entries[i].0, entries[i].1)
  {
    seq(|entries|, i requires 0 <= i < |entries| =>
      (if style.DeepObject? then name + "[" + entries[i].0 + "]" else entries[i].0, entries[i].1))
  }

  function SerializeDate(name: string, value: Value, valueOnly: bool): string
    requires value.Date?
  {
    if valueOnly then value.iso else name + "=" + value.iso
  }

  function SerializeObject(allowReserved: bool, explode: bool, name: string, style: Style,
                           entries: seq<(string, Value)>): Result<string, Error>
  {
    if !style.DeepObject? && !explode then
      var joined := Join(Flattened(allowReserved, entries), ",");
      Ok(match style
         case Form => name + "=" + joined
         case Label => "." + joined
         case Matrix => ";" + name + "=" + joined
         case _ => joined)
    else
      var separator := ExplodeSeparator(style);
      var pieces := SerializePrimitives(allowReserved, EntryNames(name, style, entries));
      if pieces.Err? then Err(pieces.error)
      else Ok((if style.Label? || style.Matrix? then separator else "") + Join(pieces.value, separator))
  }
}
