/** The one field for which the last value does not always win: a repeated nested object. */
module JsonRepeated {
  import opened Wrappers
  import opened Induction
  import opened JsonCodec
  import opened JsonLaws
  import opened JsonOrder
  import opened JsonMessages
  import opened JsonRoundTrip

  // ----- what an error takes from its fields -----

  /** `t` has from `fields` whatever they name, as `u` does, and from `s` the rest. */
  ghost predicate Overlaid(s: ErrorBody, t: ErrorBody, u: ErrorBody, fields: seq<Field>) {
    && t.code == (if Present(fields, "code") then u.code else s.code)
    && t.message == (if Present(fields, "message") then u.message else s.message)
    && t.requestId == (if Present(fields, "requestId") then u.requestId else s.requestId)
    && t.details == (if Present(fields, "details") then u.details else s.details)
    && (Present(fields, "details") ==> t.details.Some?)
  }

  lemma AddOverlays(s: ErrorBody, t: ErrorBody, u: ErrorBody, fields: seq<Field>, last: Field)
    requires Overlaid(s, t, u, fields) && Add(ERROR, Ok(t), last).Ok? && Add(ERROR, Ok(u), last).Ok?
    ensures Overlaid(s, Add(ERROR, Ok(t), last).value, Add(ERROR, Ok(u), last).value, fields + [last])
  {
    PresentLast(fields, last);
    assert Present(fields + [last], "code") <==> Present(fields, "code") || last.0 == "code";
    assert Present(fields + [last], "message") <==> Present(fields, "message") || last.0 == "message";
    assert Present(fields + [last], "requestId") <==> Present(fields, "requestId") || last.0 == "requestId";
    assert Present(fields + [last], "details") <==> Present(fields, "details") || last.0 == "details";
  }

  ghost predicate FillOverlays(s: ErrorBody, z: ErrorBody, fields: seq<Field>) {
    var (t, u) := (Fill(ERROR, s, fields), Fill(ERROR, z, fields));
    t.Ok? && u.Ok? ==> Overlaid(s, t.value, u.value, fields)
  }

  lemma AddFits(before: Result<ErrorBody, Error>, last: Field)
    requires Add(ERROR, before, last).Ok?
    ensures before.Ok?
  {
  }

  lemma StillOverlays(s: ErrorBody, z: ErrorBody, fields: seq<Field>, last: Field)
    requires FillOverlays(s, z, fields)
    ensures FillOverlays(s, z, With(fields, last))
  {
    var (t, u) := (Fill(ERROR, s, fields), Fill(ERROR, z, fields));
    FillAdd(ERROR, s, fields, last);
    FillAdd(ERROR, z, fields, last);
    if Add(ERROR, t, last).Ok? && Add(ERROR, u, last).Ok? {
      AddFits(t, last);
      AddFits(u, last);
      AddOverlays(s, t.value, u.value, fields, last);
    }
  }

  lemma NothingOverlays(s: ErrorBody, z: ErrorBody)
    ensures FillOverlays(s, z, [])
  {
    assert Fill(ERROR, s, []) == Ok(s);
  }

  lemma ErrorOverlays(s: ErrorBody, z: ErrorBody, fields: seq<Field>)
    requires Fill(ERROR, s, fields).Ok? && Fill(ERROR, z, fields).Ok?
    ensures Overlaid(s, Fill(ERROR, s, fields).value, Fill(ERROR, z, fields).value, fields)
  {
    NothingOverlays(s, z);
    forall init, last | FillOverlays(s, z, init) ensures FillOverlays(s, z, With(init, last)) {
      StillOverlays(s, z, init, last);
    }
    ElementByElement(some => FillOverlays(s, z, some), fields);
    assert FillOverlays(s, z, fields);
  }

  lemma PresentLast(fields: seq<Field>, last: Field)
    ensures forall name :: Present(fields + [last], name) <==> Present(fields, name) || last.0 == name
  {
    forall name ensures Present(fields + [last], name) <==> Present(fields, name) || last.0 == name {
      PresentAppend(fields, [last], name);
      assert Present([last], name) <==> [last][0].0 == name;
    }
  }

  lemma DetailsGiven(fields: seq<Field>)
    requires DecodeError(NO_ERROR, Obj(fields)).Ok?
    ensures DecodeError(NO_ERROR, Obj(fields)).value.details.Some? <==> Present(fields, "details")
  {
    ErrorOverlays(NO_ERROR, NO_ERROR, fields);
  }

  lemma StillDecodes(s: ErrorBody, t: ErrorBody, json: Json)
    requires DecodeError(s, json).Ok?
    ensures DecodeError(t, json).Ok?
  {
    ErrorIsLawful();
    DecodesExactly(ERROR, s, json);
    DecodesExactly(ERROR, t, json);
  }

  /** One object after the other, decoded into the same struct. */
  function Merged(s: ErrorBody, errors: seq<Json>): Result<ErrorBody, Error> {
    if errors == [] then Ok(s)
    else
      var before := Merged(s, errors[..|errors| - 1]);
      if before.Err? then before else DecodeError(before.value, errors[|errors| - 1])
  }

  function Repeated(errors: seq<Json>): (fields: seq<Field>)
    ensures |fields| == |errors| && forall i :: 0 <= i < |errors| ==> fields[i] == ("error", errors[i])
  {
    seq(|errors|, i requires 0 <= i < |errors| => ("error", errors[i]))
  }

  /** Every object decodes by itself. */
  predicate AllErrors(errors: seq<Json>) {
    forall i :: 0 <= i < |errors| ==> DecodeError(NO_ERROR, errors[i]).Ok?
  }

  lemma {:induction false} MergedDecodes(s: ErrorBody, errors: seq<Json>)
    requires AllErrors(errors)
    ensures Merged(s, errors).Ok?
  {
    if errors != [] {
      var n := |errors| - 1;
      MergedDecodes(s, errors[..n]);
      assert DecodeError(NO_ERROR, errors[n]).Ok?;
      StillDecodes(NO_ERROR, Merged(s, errors[..n]).value, errors[n]);
    }
  }

  lemma AddError(t: ErrorBody, error: Json)
    requires DecodeError(t, error).Ok?
    ensures Add(ENVELOPE, Ok(Envelope(t)), ("error", error)) == Ok(Envelope(DecodeError(t, error).value))
  {
    IndexOfName(ENVELOPE.names, 0);
  }

  lemma MergedSnoc(s: ErrorBody, errors: seq<Json>, last: Json)
    ensures Merged(s, errors + [last]) ==
            if Merged(s, errors).Err? then Merged(s, errors) else DecodeError(Merged(s, errors).value, last)
  {
    assert (errors + [last])[..|errors|] == errors;
  }

  /** The envelope is filled by the objects in turn. */
  ghost predicate FillsInTurn(s: ErrorBody, errors: seq<Json>) {
    var merged := Merged(s, errors);
    merged.Ok? ==> Fill(ENVELOPE, Envelope(s), Repeated(errors)) == Ok(Envelope(merged.value))
  }

  lemma FillsOneMore(s: ErrorBody, errors: seq<Json>, last: Json)
    requires FillsInTurn(s, errors)
    ensures FillsInTurn(s, With(errors, last))
  {
    MergedSnoc(s, errors, last);
    if Merged(s, errors + [last]).Ok? {
      assert Repeated(errors + [last]) == Repeated(errors) + [("error", last)];
      FillAdd(ENVELOPE, Envelope(s), Repeated(errors), ("error", last));
      AddError(Merged(s, errors).value, last);
    }
  }

  lemma FillErrors(s: ErrorBody, errors: seq<Json>)
    ensures FillsInTurn(s, errors)
  {
    forall init, last | FillsInTurn(s, init) ensures FillsInTurn(s, With(init, last)) {
      FillsOneMore(s, init, last);
    }
    NoErrors(s);
    ElementByElement(some => FillsInTurn(s, some), errors);
    assert FillsInTurn(s, errors);
  }

  lemma NoErrors(s: ErrorBody)
    ensures FillsInTurn(s, [])
  {
    var none: seq<Json> := [];
    assert Repeated(none) == [];
    assert Fill(ENVELOPE, Envelope(s), []) == Ok(Envelope(s));
  }

  /** An envelope with any number of `error` objects decodes to all of them in turn. */
  lemma RepeatedErrors(s: ErrorBody, errors: seq<Json>)
    requires errors != [] && AllErrors(errors)
    ensures Merged(s, errors).Ok?
    ensures DecodeEnvelope(Envelope(s), Obj(Repeated(errors))) == Ok(Envelope(Merged(s, errors).value))
  {
    EnvelopeIsLawful();
    MergedDecodes(s, errors);
    FillErrors(s, errors);
    Complete(ENVELOPE, Repeated(errors));
  }

  predicate NamesDetails(error: Json) {
    error.Obj? && Present(error.fields, "details")
  }

  /** What each object gives by itself. */
  function Own(errors: seq<Json>): (own: seq<ErrorBody>)
    requires AllErrors(errors)
    ensures |own| == |errors| && forall i :: 0 <= i < |errors| ==> own[i] == DecodeError(NO_ERROR, errors[i]).value
  {
    seq(|errors|, i requires 0 <= i < |errors| => DecodeError(NO_ERROR, errors[i]).value)
  }

  /** The details of the last object that has some, else those from before. */
  function DetailsAfter(before: Option<seq<Detail>>, own: seq<ErrorBody>): Option<seq<Detail>> {
    if own == [] then before
    else if own[|own| - 1].details.Some? then own[|own| - 1].details
    else DetailsAfter(before, own[..|own| - 1])
  }

  lemma OneMoreError(t: ErrorBody, last: Json)
    requires DecodeError(NO_ERROR, last).Ok?
    ensures DecodeError(t, last).Ok?
    ensures var own := DecodeError(NO_ERROR, last).value;
            DecodeError(t, last).value == if NamesDetails(last) then own else own.(details := t.details)
    ensures NamesDetails(last) <==> DecodeError(NO_ERROR, last).value.details.Some?
  {
    StillDecodes(NO_ERROR, t, last);
    DetailsGiven(last.fields);
    ErrorOverlays(t, NO_ERROR, last.fields);
    AllRequired(last.fields);
  }

  lemma MergedNext(s: ErrorBody, errors: seq<Json>)
    requires errors != [] && AllErrors(errors)
    ensures var before := Merged(s, errors[..|errors| - 1]);
            && before.Ok? && Merged(s, errors).Ok?
            && var own := DecodeError(NO_ERROR, errors[|errors| - 1]).value;
               Merged(s, errors).value == if own.details.Some? then own else own.(details := before.value.details)
  {
    var n := |errors| - 1;
    MergedDecodes(s, errors[..n]);
    OneMoreError(Merged(s, errors[..n]).value, errors[n]);
  }

  /** All fields are those of the last object, but for the details, which are those of the last
      object that has some, or what the target held. */
  lemma {:induction false} MergedIs(s: ErrorBody, errors: seq<Json>)
    requires errors != [] && AllErrors(errors)
    ensures var own := Own(errors);
            Merged(s, errors) == Ok(own[|own| - 1].(details := DetailsAfter(s.details, own)))
  {
    var n := |errors| - 1;
    MergedNext(s, errors);
    assert Own(errors)[..n] == Own(errors[..n]);
    if n > 0 { MergedIs(s, errors[..n]); }
  }

  lemma {:induction false} NoDetailsAfter(own: seq<ErrorBody>)
    ensures DetailsAfter(None, own).None? <==> forall i :: 0 <= i < |own| ==> own[i].details.None?
  {
    if own != [] { NoDetailsAfter(own[..|own| - 1]); }
  }

  lemma LastHasAll(own: seq<ErrorBody>)
    requires own != []
    ensures var n := |own| - 1;
            own[n].(details := DetailsAfter(None, own)) == own[n] <==>
            own[n].details.Some? || forall i :: 0 <= i < n ==> own[i].details.None?
  {
    NoDetailsAfter(own[..|own| - 1]);
  }

  lemma DetailsAreNamed(errors: seq<Json>)
    requires AllErrors(errors)
    ensures forall i :: 0 <= i < |errors| ==> (Own(errors)[i].details.Some? <==> NamesDetails(errors[i]))
  {
    forall i | 0 <= i < |errors| ensures Own(errors)[i].details.Some? <==> NamesDetails(errors[i]) {
      OneMoreError(NO_ERROR, errors[i]);
    }
  }

  /** The nested object is decoded in place, so of any number of `error` objects the last one
      wins exactly when it names its details or none of the earlier ones does. */
  lemma LastErrorWins(errors: seq<Json>)
    requires errors != [] && AllErrors(errors)
    ensures var (n, blank) := (|errors| - 1, Envelope(NO_ERROR));
            DecodeEnvelope(blank, Obj(Repeated(errors))) == DecodeEnvelope(blank, Obj([("error", errors[n])])) <==>
            NamesDetails(errors[n]) || forall i :: 0 <= i < n ==> !NamesDetails(errors[i])
  {
    RepeatedErrors(NO_ERROR, errors);
    MergedIs(NO_ERROR, errors);
    ErrorOnce(Envelope(NO_ERROR), errors[|errors| - 1]);
    LastHasAll(Own(errors));
    DetailsAreNamed(errors);
  }

  lemma AllRequired(fields: seq<Field>)
    requires DecodeError(NO_ERROR, Obj(fields)).Ok?
    ensures Present(fields, "code") && Present(fields, "message") && Present(fields, "requestId")
  {
    ErrorIsLawful();
    DecodesExactly(ERROR, NO_ERROR, Obj(fields));
    assert Required(ERROR, 0) && Required(ERROR, 1) && Required(ERROR, 2);
    assert Present(fields, ERROR.names[0]) && Present(fields, ERROR.names[1]) && Present(fields, ERROR.names[2]);
  }
}
