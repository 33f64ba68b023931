/** What decoding accepts, what it reports, and what it does not depend on. */
module JsonLaws {
  import opened Wrappers
  import opened JsonCodec

  type Field = (string, Json)

  ghost predicate Distinct(names: seq<string>) {
    forall i, j :: 0 <= i < j < |names| ==> names[i] != names[j]
  }

  /** Whether a value decodes does not depend on what the struct holds. */
  ghost predicate Uniform<S(!new)>(shape: Shape<S>) {
    forall s, t, i, v :: shape.assign(s, i, v).Some? ==> shape.assign(t, i, v).Some?
  }

  /** The key is known and the value decodes. */
  predicate Fits<S>(shape: Shape<S>, s: S, field: Field) {
    var i := IndexOf(shape.names, field.0);
    i >= 0 && shape.assign(s, i, field.1).Some?
  }

  predicate Present(fields: seq<Field>, name: string) {
    exists k :: 0 <= k < |fields| && fields[k].0 == name
  }

  predicate Required<S>(shape: Shape<S>, i: nat) {
    i < |shape.names| && HasBit(shape.mask, i)
  }

  lemma {:induction false} IndexOfName(names: seq<string>, i: nat)
    requires Distinct(names) && i < |names|
    ensures IndexOf(names, names[i]) == i
  {
    if i < |names| - 1 {
      IndexOfName(names[..|names| - 1], i);
    } else {
      var before := IndexOf(names[..|names| - 1], names[i]);
      assert before < 0;
    }
  }

  lemma SeenIsPresent<S>(shape: Shape<S>, fields: seq<Field>, i: nat)
    requires Distinct(shape.names) && Required(shape, i)
    ensures Seen(shape, fields, |fields|, i) <==> Present(fields, shape.names[i])
  {
    IndexOfName(shape.names, i);
  }

  /** The callback gets through the first `n` fields exactly when each of them fits. */
  lemma {:induction false} FillsExactly<S(!new)>(shape: Shape<S>, s: S, fields: seq<Field>, n: nat)
    requires Uniform(shape) && n <= |fields|
    ensures Filled(shape, s, fields, n).Ok? <==> forall k :: 0 <= k < n ==> Fits(shape, s, fields[k])
  {
    if n > 0 {
      FillsExactly(shape, s, fields, n - 1);
      var before := Filled(shape, s, fields, n - 1);
      if before.Ok? {
        assert Fits(shape, before.value, fields[n - 1]) <==> Fits(shape, s, fields[n - 1]);
      }
    }
  }

  /** `name` is a required field, of index `i` or above, that does not occur. */
  predicate Absent<S>(shape: Shape<S>, fields: seq<Field>, i: nat, name: string) {
    !Present(fields, name) && exists k :: i <= k < |shape.names| && Required(shape, k) && shape.names[k] == name
  }

  /** `missing` lists exactly the absent required fields, by index and without repeats. */
  ghost predicate Reports<S>(shape: Shape<S>, fields: seq<Field>, missing: seq<string>) {
    && (forall name :: name in missing <==> Absent(shape, fields, 0, name))
    && (forall a, b :: 0 <= a < b < |missing| ==>
          IndexOf(shape.names, missing[a]) < IndexOf(shape.names, missing[b]))
  }

  lemma {:induction false} MissingHolds<S>(shape: Shape<S>, fields: seq<Field>, i: nat, name: string)
    requires i <= 8 && WellShaped(shape) && Distinct(shape.names)
    ensures name in MissingFrom(shape, fields, i) <==> Absent(shape, fields, i, name)
    decreases 8 - i
  {
    if i < 8 {
      MissingHolds(shape, fields, i + 1, name);
      if Required(shape, i) { SeenIsPresent(shape, fields, i); }
    }
  }

  lemma {:induction false} MissingInOrder<S>(shape: Shape<S>, fields: seq<Field>, i: nat)
    requires i <= 8 && WellShaped(shape) && Distinct(shape.names)
    ensures var missing := MissingFrom(shape, fields, i);
            && (forall a :: 0 <= a < |missing| ==> IndexOf(shape.names, missing[a]) >= i)
            && (forall a, b :: 0 <= a < b < |missing| ==>
                  IndexOf(shape.names, missing[a]) < IndexOf(shape.names, missing[b]))
    decreases 8 - i
  {
    if i < 8 {
      MissingInOrder(shape, fields, i + 1);
      if Required(shape, i) { IndexOfName(shape.names, i); }
    }
  }

  /** Decoding succeeds exactly when the value is an object whose every key is known and
      whose every value decodes, and no required key is absent. */
  lemma DecodesExactly<S(!new)>(shape: Shape<S>, s: S, json: Json)
    requires WellShaped(shape) && Distinct(shape.names) && Uniform(shape)
    ensures Decoded(shape, s, json).Ok? <==>
            && json.Obj?
            && (forall k :: 0 <= k < |json.fields| ==> Fits(shape, s, json.fields[k]))
            && (forall i :: 0 <= i < |shape.names| && Required(shape, i) ==> Present(json.fields, shape.names[i]))
  {
    if json.Obj? {
      var fields := json.fields;
      FillsExactly(shape, s, fields, |fields|);
      var missing := MissingFrom(shape, fields, 0);
      if missing != [] {
        MissingHolds(shape, fields, 0, missing[0]);
      }
      forall i | 0 <= i < |shape.names| && Required(shape, i) && missing == []
        ensures Present(fields, shape.names[i])
      {
        MissingHolds(shape, fields, 0, shape.names[i]);
      }
    }
  }

  lemma MissingReports<S>(shape: Shape<S>, fields: seq<Field>)
    requires WellShaped(shape) && Distinct(shape.names)
    ensures Reports(shape, fields, MissingFrom(shape, fields, 0))
  {
    MissingInOrder(shape, fields, 0);
    forall name ensures name in MissingFrom(shape, fields, 0) <==> Absent(shape, fields, 0, name) {
      MissingHolds(shape, fields, 0, name);
    }
  }

  /** When only presence fails, the report names exactly the absent required fields, in
      the order of their indices and without repeats. */
  lemma ReportsExactly<S(!new)>(shape: Shape<S>, s: S, fields: seq<Field>)
    requires WellShaped(shape) && Distinct(shape.names) && Uniform(shape)
    requires forall k :: 0 <= k < |fields| ==> Fits(shape, s, fields[k])
    ensures var r := Decoded(shape, s, Obj(fields));
            r.Ok? || (r.error.MissingFields? && r.error.names != [] && Reports(shape, fields, r.error.names))
  {
    FillsExactly(shape, s, fields, |fields|);
    MissingReports(shape, fields);
  }

  /** Otherwise the first field that does not fit is the one reported. */
  lemma FirstMisfitReported<S(!new)>(shape: Shape<S>, s: S, fields: seq<Field>, k: nat)
    requires WellShaped(shape) && Uniform(shape) && k < |fields|
    requires !Fits(shape, s, fields[k]) && forall j :: 0 <= j < k ==> Fits(shape, s, fields[j])
    ensures Decoded(shape, s, Obj(fields)) ==
            Err(if IndexOf(shape.names, fields[k].0) < 0 then UnexpectedField(fields[k].0) else BadField(fields[k].0))
  {
    FillsExactly(shape, s, fields, k);
    FillsExactly(shape, s, fields, k + 1);
    FailureStays(shape, s, fields, k + 1, |fields|);
  }
}
