/** Decoding what was encoded. */
module JsonRoundTrip {
  import opened Wrappers
  import opened JsonCodec
  import opened JsonLaws
  import opened JsonMessages
  import opened JsonEncoding

  lemma Complete<S>(shape: Shape<S>, fields: seq<Field>)
    requires WellShaped(shape) && Distinct(shape.names)
    requires forall i :: 0 <= i < |shape.names| && Required(shape, i) ==> i < |fields| && fields[i].0 == shape.names[i]
    ensures MissingFrom(shape, fields, 0) == []
  {
    var missing := MissingFrom(shape, fields, 0);
    if missing != [] { MissingHolds(shape, fields, 0, missing[0]); }
  }

  lemma FilledNext<S>(shape: Shape<S>, s: S, fields: seq<Field>, n: nat)
    requires Distinct(shape.names) && n < |fields| && n < |shape.names| && fields[n].0 == shape.names[n]
    requires Filled(shape, s, fields, n).Ok?
    ensures var next := shape.assign(Filled(shape, s, fields, n).value, n, fields[n].1);
            Filled(shape, s, fields, n + 1) == if next.Some? then Ok(next.value) else Err(BadField(fields[n].0))
  {
    IndexOfName(shape.names, n);
  }

  lemma DetailRoundTrip(s: Detail, x: Detail)
    ensures Decoded(DETAIL, s, DetailJson(x)) == Ok(x)
  {
    DetailIsLawful();
    var fields := DetailJson(x).fields;
    FilledNext(DETAIL, s, fields, 0);
    FilledNext(DETAIL, s, fields, 1);
    FilledNext(DETAIL, s, fields, 2);
    Complete(DETAIL, fields);
  }

  lemma {:induction false} AllDecode<X>(decode: Json -> Result<X, Error>, items: seq<Json>, values: seq<X>)
    requires |items| == |values| && forall k :: 0 <= k < |items| ==> decode(items[k]) == Ok(values[k])
    ensures DecodeAll(decode, items) == Some(values)
  {
    if items != [] {
      var n := |items| - 1;
      AllDecode(decode, items[..n], values[..n]);
      assert values == values[..n] + [values[n]];
    }
  }

  lemma DetailsRoundTrip(details: seq<Detail>)
    ensures DecodeAll(DecodeDetail, DetailsJson(details)) == Some(details)
  {
    forall k | 0 <= k < |details| ensures DecodeDetail(DetailsJson(details)[k]) == Ok(details[k]) {
      DetailRoundTrip(NO_DETAIL, details[k]);
    }
    AllDecode(DecodeDetail, DetailsJson(details), details);
  }

  /** Every field comes back, except that nil details leave the struct's details alone. */
  lemma ErrorDecodesTo(s: ErrorBody, x: ErrorBody)
    ensures DecodeError(s, ErrorJson(x)) == Ok(if x.details.Some? then x else x.(details := s.details))
  {
    ErrorIsLawful();
    var fields := ErrorJson(x).fields;
    FilledNext(ERROR, s, fields, 0);
    FilledNext(ERROR, s, fields, 1);
    FilledNext(ERROR, s, fields, 2);
    if x.details.Some? {
      DetailsRoundTrip(x.details.value);
      FilledNext(ERROR, s, fields, 3);
    }
    Complete(ERROR, fields);
  }

  lemma OneField<S>(shape: Shape<S>, s: S, fields: seq<Field>)
    requires WellShaped(shape) && |shape.names| == |fields| == 1 && fields[0].0 == shape.names[0]
    ensures var next := shape.assign(s, 0, fields[0].1);
            Decoded(shape, s, Obj(fields)) == if next.Some? then Ok(next.value) else Err(BadField(fields[0].0))
  {
    assert Filled(shape, s, fields, 0) == Ok(s);
    FilledNext(shape, s, fields, 0);
    Complete(shape, fields);
  }

  lemma ErrorOnce(s: Envelope, only: Json)
    ensures DecodeEnvelope(s, Obj([("error", only)])) ==
            var error := DecodeError(s.error, only);
            if error.Ok? then Ok(Envelope(error.value)) else Err(BadField("error"))
  {
    OneField(ENVELOPE, s, [("error", only)]);
  }

  /** An encoded envelope decodes to itself, nil and empty details apart, exactly when it
      names its details or the struct decoded into holds none. */
  lemma EnvelopeRoundTrip(s: Envelope, x: Envelope)
    ensures DecodeEnvelope(s, EnvelopeJson(x)) == Ok(x) <==> x.error.details.Some? || s.error.details.None?
  {
    EnvelopeIsLawful();
    ErrorDecodesTo(s.error, x.error);
    ErrorOnce(s, ErrorJson(x.error));
  }

  predicate Faithful<X(==)>(codec: Codec<X>, x: X) {
    codec.decode(codec.encode(x)) == Some(x)
  }

  /** An encoded organization decodes to itself exactly when the library's codecs bring back
      its identifier and its times. */
  lemma OrganizationRoundTrip<I(!new), T(!new)>(ids: Codec<I>, times: Codec<T>, s: Organization<I, T>,
                                                x: Organization<I, T>)
    ensures Decoded(OrganizationShape(ids, times), s, OrganizationJson(ids, times, x)) == Ok(x) <==>
            Faithful(ids, x.id) && Faithful(times, x.createdAt) && Faithful(times, x.updatedAt)
  {
    OrganizationIsLawful(ids, times);
    var shape := OrganizationShape(ids, times);
    var fields := OrganizationJson(ids, times, x).fields;
    Complete(shape, fields);
    FilledNext(shape, s, fields, 0);
    if Filled(shape, s, fields, 1).Err? {
      FailureStays(shape, s, fields, 1, 5);
    } else {
      FilledNext(shape, s, fields, 1);
      FilledNext(shape, s, fields, 2);
      FilledNext(shape, s, fields, 3);
      if Filled(shape, s, fields, 4).Err? {
        FailureStays(shape, s, fields, 4, 5);
      } else {
        FilledNext(shape, s, fields, 4);
      }
    }
  }

  lemma ReadBack(read: Json, written: Json)
    requires Tokens(read) == Tokens(written)
    ensures read == written
  {
    var none: seq<Token> := [];
    assert Tokens(read) + none == Tokens(written) + none;
    Unambiguous(read, none, written, none);
  }

  /** What the encoder wrote can only be read as the value it wrote, which decodes to the
      message encoded. */
  lemma WireRoundTrip(x: Envelope, read: Json)
    requires Tokens(read) == Tokens(EnvelopeJson(x))
    ensures DecodeEnvelope(Envelope(NO_ERROR), read) == Ok(x)
  {
    ReadBack(read, EnvelopeJson(x));
    EnvelopeRoundTrip(Envelope(NO_ERROR), x);
  }

  /** Likewise for an organization, exactly when the library's codecs are faithful to it. */
  lemma OrganizationOverWire<I(!new), T(!new)>(ids: Codec<I>, times: Codec<T>, s: Organization<I, T>,
                                               x: Organization<I, T>, read: Json)
    requires Tokens(read) == Tokens(OrganizationJson(ids, times, x))
    ensures Decoded(OrganizationShape(ids, times), s, read) == Ok(x) <==>
            Faithful(ids, x.id) && Faithful(times, x.createdAt) && Faithful(times, x.updatedAt)
  {
    ReadBack(read, OrganizationJson(ids, times, x));
    OrganizationRoundTrip(ids, times, s, x);
  }
}
