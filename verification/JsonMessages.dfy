/** The messages of the API: their shapes, their encoders and what decoding makes of them. */
module JsonMessages {
  import opened Wrappers
  import opened JsonCodec
  import opened JsonLaws
  import opened JsonOrder

  datatype Detail = Detail(pointer: string, code: string, message: string)

  /** `details` is None for a nil slice and Some([]) for an empty one. */
  datatype ErrorBody = ErrorBody(code: string, message: string, requestId: string, details: Option<seq<Detail>>)

  datatype Envelope = Envelope(error: ErrorBody)

  datatype Organization<I, T> = Organization(id: I, name: string, status: string, createdAt: T, updatedAt: T)

  /** A leaf codec of the runtime library. */
  datatype Codec<!X> = Codec(encode: X -> Json, decode: Json -> Option<X>)

  // ----- decoding one field -----

  function AssignDetail(s: Detail, i: nat, value: Json): Option<Detail> {
    if !value.Str? then None
    else
      match i
      case 0 => Some(s.(pointer := value.text))
      case 1 => Some(s.(code := value.text))
      case 2 => Some(s.(message := value.text))
      case _ => None
  }

  const DETAIL: Shape<Detail> := Shape(["pointer", "code", "message"], 7, AssignDetail)

  const NO_DETAIL := Detail("", "", "")

  function DecodeDetail(item: Json): Result<Detail, Error> {
    Decoded(DETAIL, NO_DETAIL, item)
  }

  /** The elements of an array, each decoded and appended. */
  function DecodeAll<X>(decode: Json -> Result<X, Error>, items: seq<Json>): Option<seq<X>> {
    if items == [] then Some([])
    else
      var before := DecodeAll(decode, items[..|items| - 1]);
      var last := decode(items[|items| - 1]);
      if before.None? || last.Err? then None else Some(before.value + [last.value])
  }

  lemma {:induction false} ElementFails<X>(decode: Json -> Result<X, Error>, items: seq<Json>, n: nat)
    requires n <= |items| && DecodeAll(decode, items[..n]).None?
    ensures DecodeAll(decode, items).None?
    decreases |items|
  {
    if n < |items| {
      assert items[..|items| - 1][..n] == items[..n];
      ElementFails(decode, items[..|items| - 1], n);
    } else {
      assert items[..n] == items;
    }
  }

  lemma OneMoreElement<X>(decode: Json -> Result<X, Error>, items: seq<Json>, n: nat)
    requires n < |items| && DecodeAll(decode, items[..n]).Some?
    ensures var before, last := DecodeAll(decode, items[..n]).value, decode(items[n]);
            DecodeAll(decode, items[..n + 1]) == if last.Err? then None else Some(before + [last.value])
  {
    assert items[..n + 1][..n] == items[..n];
  }

  /** `elem.Decode` for a fresh detail. */
  method DecodeElement(item: Json) returns (elem: Result<Detail, Error>)
    ensures elem == DecodeDetail(item)
  {
    elem := Decode(DETAIL, NO_DETAIL, item);
  }

  /** The loop over the details, each decoded into a fresh struct. */
  method DecodeDetails(items: seq<Json>) returns (r: Option<seq<Detail>>)
    ensures r == DecodeAll(DecodeDetail, items)
  {
    var details: seq<Detail> := [];
    for n := 0 to |items|
      invariant DecodeAll(DecodeDetail, items[..n]) == Some(details)
    {
      OneMoreElement(DecodeDetail, items, n);
      var elem := DecodeElement(items[n]);
      if elem.Err? {
        ElementFails(DecodeDetail, items, n + 1);
        return None;
      }
      details := details + [elem.value];
    }
    assert items[..|items|] == items;
    return Some(details);
  }

  function AssignError(s: ErrorBody, i: nat, value: Json): Option<ErrorBody> {
    match i
    case 0 => if value.Str? then Some(s.(code := value.text)) else None
    case 1 => if value.Str? then Some(s.(message := value.text)) else None
    case 2 => if value.Str? then Some(s.(requestId := value.text)) else None
    case 3 =>
      if !value.Arr? then None
      else
        var details := DecodeAll(DecodeDetail, value.items);
        if details.None? then None else Some(s.(details := details))
    case _ => None
  }

  const ERROR: Shape<ErrorBody> := Shape(["code", "message", "requestId", "details"], 7, AssignError)

  const NO_ERROR := ErrorBody("", "", "", None)

  function DecodeError(s: ErrorBody, json: Json): Result<ErrorBody, Error> {
    Decoded(ERROR, s, json)
  }

  /** The nested object is decoded in place. */
  function AssignEnvelope(s: Envelope, i: nat, value: Json): Option<Envelope> {
    if i != 0 then None
    else
      var error := DecodeError(s.error, value);
      if error.Err? then None else Some(Envelope(error.value))
  }

  const ENVELOPE: Shape<Envelope> := Shape(["error"], 1, AssignEnvelope)

  function DecodeEnvelope(s: Envelope, json: Json): Result<Envelope, Error> {
    Decoded(ENVELOPE, s, json)
  }

  function AssignOrganization<I, T>(ids: Codec<I>, times: Codec<T>, s: Organization<I, T>, i: nat, value: Json)
    : Option<Organization<I, T>>
  {
    match i
    case 0 => var id := ids.decode(value); if id.None? then None else Some(s.(id := id.value))
    case 1 => if value.Str? then Some(s.(name := value.text)) else None
    case 2 => if value.Str? then Some(s.(status := value.text)) else None
    case 3 => var time := times.decode(value); if time.None? then None else Some(s.(createdAt := time.value))
    case 4 => var time := times.decode(value); if time.None? then None else Some(s.(updatedAt := time.value))
    case _ => None
  }

  function OrganizationShape<I, T>(ids: Codec<I>, times: Codec<T>): Shape<Organization<I, T>> {
    Shape(["id", "name", "status", "createdAt", "updatedAt"], 31,
          (s, i, value) => AssignOrganization(ids, times, s, i, value))
  }

  // ----- what the shapes have in common -----

  /** All that the laws of decoding ask of a shape. */
  ghost predicate Lawful<S(!new)>(shape: Shape<S>) {
    WellShaped(shape) && Distinct(shape.names) && Uniform(shape) && Commutes(shape)
  }

  lemma DetailIsLawful()
    ensures Lawful(DETAIL) && forall i :: 0 <= i < 3 ==> Overwrites(DETAIL, i)
  {
  }

  lemma ErrorIsLawful()
    ensures Lawful(ERROR) && forall i :: 0 <= i < 4 ==> Overwrites(ERROR, i)
  {
  }

  lemma EnvelopeIsLawful()
    ensures Lawful(ENVELOPE)
  {
    ErrorIsLawful();
    forall s: Envelope, t: Envelope, i, v | ENVELOPE.assign(s, i, v).Some? ensures ENVELOPE.assign(t, i, v).Some? {
      DecodesExactly(ERROR, s.error, v);
      DecodesExactly(ERROR, t.error, v);
    }
  }

  lemma OrganizationIsLawful<I(!new), T(!new)>(ids: Codec<I>, times: Codec<T>)
    ensures var shape := OrganizationShape(ids, times);
            Lawful(shape) && forall i :: 0 <= i < 5 ==> Overwrites(shape, i)
  {
  }
}
