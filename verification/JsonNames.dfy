/** What the four messages require, field by field and name by name. */
module JsonNames {
  import opened Wrappers
  import opened JsonCodec
  import opened JsonLaws
  import opened JsonMessages

  /** The names that do not occur, in their order. */
  function Absentees(names: seq<string>, fields: seq<Field>): seq<string> {
    if names == [] then []
    else (if Present(fields, names[0]) then [] else [names[0]]) + Absentees(names[1..], fields)
  }

  /** The mask requires exactly the first names of the shape. */
  ghost predicate Requires<S>(shape: Shape<S>, required: seq<string>) {
    && |required| <= 8 && required <= shape.names
    && forall i :: 0 <= i < 8 ==> (HasBit(shape.mask, i) <==> i < |required|)
  }

  lemma {:induction false} MissingIs<S>(shape: Shape<S>, required: seq<string>, fields: seq<Field>, i: nat)
    requires WellShaped(shape) && Distinct(shape.names) && Requires(shape, required) && i <= 8
    ensures MissingFrom(shape, fields, i) == if i < |required| then Absentees(required[i..], fields) else []
    decreases 8 - i
  {
    if i < 8 {
      MissingIs(shape, required, fields, i + 1);
      if i < |required| {
        SeenIsPresent(shape, fields, i);
        assert required[i..][1..] == required[i + 1..];
      }
    }
  }

  /** A message decodes to what its fields say, or to the list of the required names that do not
      occur; a field that is unknown or does not decode is reported instead, the first of them. */
  ghost predicate DecodesBy<S>(r: Result<S, Error>, fields: seq<Field>, known: seq<string>, required: seq<string>,
                               fits: Field -> bool, value: S)
  {
    && ((forall k :: 0 <= k < |fields| ==> fits(fields[k])) ==>
          r == if Absentees(required, fields) == [] then Ok(value) else Err(MissingFields(Absentees(required, fields))))
    && forall k :: 0 <= k < |fields| && !fits(fields[k]) && (forall j :: 0 <= j < k ==> fits(fields[j])) ==>
         r == Err(if fields[k].0 in known then BadField(fields[k].0) else UnexpectedField(fields[k].0))
  }

  lemma DecodedBy<S(!new)>(shape: Shape<S>, s: S, fields: seq<Field>, required: seq<string>, fits: Field -> bool,
                           value: S)
    requires WellShaped(shape) && Distinct(shape.names) && Uniform(shape) && Requires(shape, required)
    requires forall field :: fits(field) <==> Fits(shape, s, field)
    requires Filled(shape, s, fields, |fields|).Ok? ==> Filled(shape, s, fields, |fields|).value == value
    ensures DecodesBy(Decoded(shape, s, Obj(fields)), fields, shape.names, required, fits, value)
  {
    FillsExactly(shape, s, fields, |fields|);
    MissingIs(shape, required, fields, 0);
    forall k | 0 <= k < |fields| && !fits(fields[k]) && forall j :: 0 <= j < k ==> fits(fields[j])
      ensures Decoded(shape, s, Obj(fields)) ==
              Err(if fields[k].0 in shape.names then BadField(fields[k].0) else UnexpectedField(fields[k].0))
    {
      FirstMisfitReported(shape, s, fields, k);
      IndexOfKnown(shape.names, fields[k].0);
    }
  }

  lemma {:induction false} IndexOfKnown(names: seq<string>, name: string)
    ensures IndexOf(names, name) >= 0 <==> name in names
  {
    if names != [] { IndexOfKnown(names[..|names| - 1], name); }
  }

  // ----- the last value of a field -----

  /** What the last of the first `n` fields under `name` decodes to. */
  function LastValue<X>(decode: Json -> Option<X>, fields: seq<Field>, n: nat, name: string, before: X): X
    requires n <= |fields|
  {
    if n == 0 then before
    else if fields[n - 1].0 == name && decode(fields[n - 1].1).Some? then decode(fields[n - 1].1).value
    else LastValue(decode, fields, n - 1, name, before)
  }

  function Text(json: Json): Option<string> {
    if json.Str? then Some(json.text) else None
  }

  // ----- details -----

  predicate DetailFits(field: Field) {
    field.0 in ["pointer", "code", "message"] && field.1.Str?
  }

  function DetailOf(s: Detail, fields: seq<Field>, n: nat): Detail
    requires n <= |fields|
  {
    Detail(LastValue(Text, fields, n, "pointer", s.pointer), LastValue(Text, fields, n, "code", s.code),
           LastValue(Text, fields, n, "message", s.message))
  }

  lemma {:induction false} DetailFilled(s: Detail, fields: seq<Field>, n: nat)
    requires n <= |fields| && Filled(DETAIL, s, fields, n).Ok?
    ensures Filled(DETAIL, s, fields, n).value == DetailOf(s, fields, n)
  {
    if n > 0 { DetailFilled(s, fields, n - 1); }
  }

  lemma DetailFitsExactly(s: Detail, field: Field)
    ensures DetailFits(field) <==> Fits(DETAIL, s, field)
  {
    IndexOfKnown(DETAIL.names, field.0);
  }

  lemma DetailDecodesExactly(s: Detail, fields: seq<Field>)
    ensures DecodesBy(Decoded(DETAIL, s, Obj(fields)), fields, ["pointer", "code", "message"],
                      ["pointer", "code", "message"], DetailFits, DetailOf(s, fields, |fields|))
  {
    DetailIsLawful();
    if Filled(DETAIL, s, fields, |fields|).Ok? { DetailFilled(s, fields, |fields|); }
    forall field ensures DetailFits(field) <==> Fits(DETAIL, s, field) { DetailFitsExactly(s, field); }
    DecodedBy(DETAIL, s, fields, ["pointer", "code", "message"], DetailFits, DetailOf(s, fields, |fields|));
  }

  // ----- errors -----

  function Details(json: Json): Option<Option<seq<Detail>>> {
    if json.Arr? && (forall k :: 0 <= k < |json.items| ==> DecodeDetail(json.items[k]).Ok?)
    then Some(Some(seq(|json.items|, k requires 0 <= k < |json.items| && DecodeDetail(json.items[k]).Ok? =>
                DecodeDetail(json.items[k]).value)))
    else None
  }

  lemma {:induction false} DecodesAll<X>(decode: Json -> Result<X, Error>, items: seq<Json>)
    ensures DecodeAll(decode, items).Some? <==> forall k :: 0 <= k < |items| ==> decode(items[k]).Ok?
    ensures DecodeAll(decode, items).Some? ==>
              var all := DecodeAll(decode, items).value;
              |all| == |items| && forall k :: 0 <= k < |items| ==> decode(items[k]) == Ok(all[k])
  {
    if items != [] { DecodesAll(decode, items[..|items| - 1]); }
  }

  lemma DetailsDecode(items: seq<Json>)
    ensures DecodeAll(DecodeDetail, items) ==
            if Details(Arr(items)).Some? then Details(Arr(items)).value else None
  {
    DecodesAll(DecodeDetail, items);
    if Details(Arr(items)).Some? {
      assert DecodeAll(DecodeDetail, items).value == Details(Arr(items)).value.value;
    }
  }

  predicate ErrorFits(field: Field) {
    ErrorFitsBy(Details, field)
  }

  type DetailsDecoder = Json -> Option<Option<seq<Detail>>>

  predicate ErrorFitsBy(details: DetailsDecoder, field: Field) {
    (field.0 in ["code", "message", "requestId"] && field.1.Str?) ||
    (field.0 == "details" && details(field.1).Some?)
  }

  function ErrorOf(details: DetailsDecoder, s: ErrorBody, fields: seq<Field>, n: nat): ErrorBody
    requires n <= |fields|
  {
    ErrorBody(LastValue(Text, fields, n, "code", s.code), LastValue(Text, fields, n, "message", s.message),
              LastValue(Text, fields, n, "requestId", s.requestId),
              LastValue(details, fields, n, "details", s.details))
  }

  function AssignBy(details: DetailsDecoder, s: ErrorBody, i: nat, value: Json): Option<ErrorBody> {
    if i == 3 then
      if details(value).Some? then Some(s.(details := details(value).value)) else None
    else if i > 3 || !value.Str? then None
    else Some(if i == 0 then s.(code := value.text) else if i == 1 then s.(message := value.text)
              else s.(requestId := value.text))
  }

  /** The shape's fields are three texts and the details. */
  ghost predicate Assigns(shape: Shape<ErrorBody>, details: DetailsDecoder) {
    && shape.names == ["code", "message", "requestId", "details"]
    && forall s, i, v :: shape.assign(s, i, v) == AssignBy(details, s, i, v)
  }

  lemma ErrorAssigns()
    ensures Assigns(ERROR, Details)
  {
    forall s, i, v ensures ERROR.assign(s, i, v) == AssignBy(Details, s, i, v) {
      if v.Arr? { DetailsDecode(v.items); }
    }
  }

  lemma {:induction false} ErrorFilled(shape: Shape<ErrorBody>, details: DetailsDecoder, s: ErrorBody,
                                       fields: seq<Field>, n: nat)
    requires n <= |fields| && Assigns(shape, details) && Filled(shape, s, fields, n).Ok?
    ensures Filled(shape, s, fields, n).value == ErrorOf(details, s, fields, n)
  {
    if n > 0 { ErrorFilled(shape, details, s, fields, n - 1); }
  }

  lemma ErrorFitsExactly(shape: Shape<ErrorBody>, details: DetailsDecoder, s: ErrorBody, field: Field)
    requires Assigns(shape, details)
    ensures ErrorFitsBy(details, field) <==> Fits(shape, s, field)
  {
    IndexOfKnown(shape.names, field.0);
  }

  lemma ErrorDecodesExactly(s: ErrorBody, fields: seq<Field>)
    ensures DecodesBy(DecodeError(s, Obj(fields)), fields, ["code", "message", "requestId", "details"],
                      ["code", "message", "requestId"], ErrorFits, ErrorOf(Details, s, fields, |fields|))
  {
    ErrorIsLawful();
    ErrorAssigns();
    if Filled(ERROR, s, fields, |fields|).Ok? { ErrorFilled(ERROR, Details, s, fields, |fields|); }
    forall field ensures ErrorFits(field) <==> Fits(ERROR, s, field) { ErrorFitsExactly(ERROR, Details, s, field); }
    DecodedBy(ERROR, s, fields, ["code", "message", "requestId"], ErrorFits, ErrorOf(Details, s, fields, |fields|));
  }

  // ----- envelopes -----

  /** Whether an error decodes does not depend on what it is decoded into. */
  predicate EnvelopeFits(field: Field) {
    field.0 == "error" && DecodeError(NO_ERROR, field.1).Ok?
  }

  type Decoder = (ErrorBody, Json) -> Result<ErrorBody, Error>

  /** The objects under `error` among the first `n` fields, decoded one into the other. */
  function ErrorsOf(decode: Decoder, s: ErrorBody, fields: seq<Field>, n: nat): ErrorBody
    requires n <= |fields|
  {
    if n == 0 then s
    else
      var before := ErrorsOf(decode, s, fields, n - 1);
      if fields[n - 1].0 == "error" && decode(before, fields[n - 1].1).Ok?
      then decode(before, fields[n - 1].1).value else before
  }

  /** The shape's one field is an error. */
  ghost predicate Wraps(shape: Shape<Envelope>, decode: Decoder) {
    && shape.names == ["error"]
    && forall s, v :: shape.assign(s, 0, v) ==
         if decode(s.error, v).Ok? then Some(Envelope(decode(s.error, v).value)) else None
  }

  lemma EnvelopeWraps()
    ensures Wraps(ENVELOPE, DecodeError)
  {
  }

  lemma {:induction false} EnvelopeFilled(shape: Shape<Envelope>, decode: Decoder, s: ErrorBody, fields: seq<Field>,
                                          n: nat)
    requires n <= |fields| && Wraps(shape, decode) && Filled(shape, Envelope(s), fields, n).Ok?
    ensures Filled(shape, Envelope(s), fields, n).value == Envelope(ErrorsOf(decode, s, fields, n))
  {
    if n > 0 { EnvelopeFilled(shape, decode, s, fields, n - 1); }
  }

  lemma EnvelopeFitsExactly(s: Envelope, field: Field)
    ensures EnvelopeFits(field) <==> Fits(ENVELOPE, s, field)
  {
    IndexOfKnown(ENVELOPE.names, field.0);
    ErrorIsLawful();
    DecodesExactly(ERROR, s.error, field.1);
    DecodesExactly(ERROR, NO_ERROR, field.1);
  }

  lemma EnvelopeDecodesExactly(s: ErrorBody, fields: seq<Field>)
    ensures DecodesBy(DecodeEnvelope(Envelope(s), Obj(fields)), fields, ["error"], ["error"], EnvelopeFits,
                      Envelope(ErrorsOf(DecodeError, s, fields, |fields|)))
  {
    EnvelopeIsLawful();
    EnvelopeWraps();
    var value := Envelope(ErrorsOf(DecodeError, s, fields, |fields|));
    if Filled(ENVELOPE, Envelope(s), fields, |fields|).Ok? {
      EnvelopeFilled(ENVELOPE, DecodeError, s, fields, |fields|);
    }
    forall field ensures EnvelopeFits(field) <==> Fits(ENVELOPE, Envelope(s), field) {
      EnvelopeFitsExactly(Envelope(s), field);
    }
    DecodedBy(ENVELOPE, Envelope(s), fields, ["error"], EnvelopeFits, value);
  }

  // ----- organizations -----

  predicate OrganizationFits<I, T>(ids: Codec<I>, times: Codec<T>, field: Field) {
    || (field.0 == "id" && ids.decode(field.1).Some?)
    || (field.0 in ["name", "status"] && field.1.Str?)
    || (field.0 in ["createdAt", "updatedAt"] && times.decode(field.1).Some?)
  }

  function OrganizationOf<I, T>(ids: Codec<I>, times: Codec<T>, s: Organization<I, T>, fields: seq<Field>, n: nat)
    : Organization<I, T>
    requires n <= |fields|
  {
    Organization(
      LastValue(ids.decode, fields, n, "id", s.id),
      LastValue(Text, fields, n, "name", s.name), LastValue(Text, fields, n, "status", s.status),
      LastValue(times.decode, fields, n, "createdAt", s.createdAt),
      LastValue(times.decode, fields, n, "updatedAt", s.updatedAt))
  }

  lemma {:induction false} OrganizationFilled<I, T>(ids: Codec<I>, times: Codec<T>, s: Organization<I, T>,
                                                    fields: seq<Field>, n: nat)
    requires n <= |fields| && Filled(OrganizationShape(ids, times), s, fields, n).Ok?
    ensures Filled(OrganizationShape(ids, times), s, fields, n).value == OrganizationOf(ids, times, s, fields, n)
  {
    if n > 0 { OrganizationFilled(ids, times, s, fields, n - 1); }
  }

  lemma OrganizationFitsExactly<I, T>(ids: Codec<I>, times: Codec<T>, s: Organization<I, T>, field: Field)
    ensures OrganizationFits(ids, times, field) <==> Fits(OrganizationShape(ids, times), s, field)
  {
    IndexOfKnown(OrganizationShape(ids, times).names, field.0);
  }

  lemma OrganizationDecodesExactly<I(!new), T(!new)>(ids: Codec<I>, times: Codec<T>, s: Organization<I, T>,
                                                     fields: seq<Field>)
    ensures DecodesBy(Decoded(OrganizationShape(ids, times), s, Obj(fields)), fields,
                      ["id", "name", "status", "createdAt", "updatedAt"],
                      ["id", "name", "status", "createdAt", "updatedAt"],
                      field => OrganizationFits(ids, times, field), OrganizationOf(ids, times, s, fields, |fields|))
  {
    OrganizationIsLawful(ids, times);
    var shape := OrganizationShape(ids, times);
    if Filled(shape, s, fields, |fields|).Ok? { OrganizationFilled(ids, times, s, fields, |fields|); }
    forall field ensures OrganizationFits(ids, times, field) <==> Fits(shape, s, field) {
      OrganizationFitsExactly(ids, times, s, field);
    }
    DecodedBy(shape, s, fields, shape.names, field => OrganizationFits(ids, times, field),
              OrganizationOf(ids, times, s, fields, |fields|));
  }
}
