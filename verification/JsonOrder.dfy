/** What the order and the repetition of an object's fields can and cannot change. */
module JsonOrder {
  import opened Wrappers
  import opened JsonCodec
  import opened JsonLaws

  /** One value after another. */
  function Both<S>(shape: Shape<S>, s: S, i: nat, v: Json, j: nat, w: Json): Option<S> {
    var first := shape.assign(s, i, v);
    if first.None? then None else shape.assign(first.value, j, w)
  }

  /** Values of different fields go to different places. */
  ghost predicate Commutes<S(!new)>(shape: Shape<S>) {
    forall s, i, v, j, w :: i != j && Both(shape, s, i, v, j, w).Some? ==>
                              Both(shape, s, j, w, i, v) == Both(shape, s, i, v, j, w)
  }

  /** A second value of field `i` leaves nothing of the first. */
  ghost predicate Overwrites<S(!new)>(shape: Shape<S>, i: nat) {
    forall s, v, w :: Both(shape, s, i, v, i, w).Some? ==> shape.assign(s, i, w) == Both(shape, s, i, v, i, w)
  }

  /** The struct after all the fields. */
  function Fill<S>(shape: Shape<S>, s: S, fields: seq<Field>): Result<S, Error> {
    Filled(shape, s, fields, |fields|)
  }

  lemma {:induction false} FilledIsPrefix<S>(shape: Shape<S>, s: S, fields: seq<Field>, n: nat)
    requires n <= |fields|
    ensures Filled(shape, s, fields, n) == Fill(shape, s, fields[..n])
  {
    FilledAgrees(shape, s, fields, fields[..n], n);
  }

  lemma {:induction false} FilledAgrees<S>(shape: Shape<S>, s: S, a: seq<Field>, b: seq<Field>, n: nat)
    requires n <= |a| && n <= |b| && a[..n] == b[..n]
    ensures Filled(shape, s, a, n) == Filled(shape, s, b, n)
  {
    if n > 0 {
      assert a[..n][..n - 1] == a[..n - 1] && b[..n][..n - 1] == b[..n - 1];
      assert a[..n][n - 1] == b[..n][n - 1];
      FilledAgrees(shape, s, a, b, n - 1);
    }
  }

  /** One more field. */
  function Add<S>(shape: Shape<S>, before: Result<S, Error>, field: Field): Result<S, Error> {
    if before.Err? then before
    else
      var i := IndexOf(shape.names, field.0);
      if i < 0 then Err(UnexpectedField(field.0))
      else
        var after := shape.assign(before.value, i, field.1);
        if after.None? then Err(BadField(field.0)) else Ok(after.value)
  }

  lemma FillAdd<S>(shape: Shape<S>, s: S, fields: seq<Field>, field: Field)
    ensures Fill(shape, s, fields + [field]) == Add(shape, Fill(shape, s, fields), field)
  {
    FilledIsPrefix(shape, s, fields + [field], |fields|);
    assert (fields + [field])[..|fields|] == fields;
  }

  lemma {:induction false} FillAppend<S>(shape: Shape<S>, s: S, a: seq<Field>, b: seq<Field>, rest: seq<Field>)
    requires Fill(shape, s, a) == Fill(shape, s, b)
    ensures Fill(shape, s, a + rest) == Fill(shape, s, b + rest)
  {
    if rest == [] {
      assert a + rest == a && b + rest == b;
    } else {
      var n := |rest| - 1;
      FillAppend(shape, s, a, b, rest[..n]);
      FillAdd(shape, s, a + rest[..n], rest[n]);
      FillAdd(shape, s, b + rest[..n], rest[n]);
      assert a + rest == (a + rest[..n]) + [rest[n]] && b + rest == (b + rest[..n]) + [rest[n]];
    }
  }

  lemma AddSwaps<S(!new)>(shape: Shape<S>, before: Result<S, Error>, x: Field, y: Field)
    requires Commutes(shape) && x.0 != y.0
    requires Add(shape, Add(shape, before, x), y).Ok?
    ensures Add(shape, Add(shape, before, y), x) == Add(shape, Add(shape, before, x), y)
  {
    var i, j := IndexOf(shape.names, x.0), IndexOf(shape.names, y.0);
    assert i != j;
    assert Both(shape, before.value, i, x.1, j, y.1).Some?;
    assert Both(shape, before.value, j, y.1, i, x.1) == Both(shape, before.value, i, x.1, j, y.1);
  }

  /** A field can wait until after any number of fields with other names. */
  lemma {:induction false} MoveToEnd<S(!new)>(shape: Shape<S>, s: S, before: seq<Field>, x: Field, after: seq<Field>)
    requires Commutes(shape) && Fill(shape, s, before + [x] + after).Ok?
    requires forall k :: 0 <= k < |after| ==> after[k].0 != x.0
    ensures Fill(shape, s, before + after + [x]) == Fill(shape, s, before + [x] + after)
  {
    if after == [] {
      assert before + after + [x] == before + [x] + after;
    } else {
      var n := |after| - 1;
      var most, y := after[..n], after[n];
      assert before + [x] + after == (before + [x] + most) + [y];
      FillAdd(shape, s, before + [x] + most, y);
      MoveToEnd(shape, s, before, x, most);
      FillAdd(shape, s, before + most, x);
      AddSwaps(shape, Fill(shape, s, before + most), x, y);
      FillAdd(shape, s, before + most, y);
      assert before + after == (before + most) + [y];
      FillAdd(shape, s, before + after, x);
    }
  }

  /** The values given for `name`, in order. */
  function Named(fields: seq<Field>, name: string): seq<Json> {
    if fields == [] then []
    else
      var last := fields[|fields| - 1];
      Named(fields[..|fields| - 1], name) + if last.0 == name then [last.1] else []
  }

  /** The same values for each name, in the same order: only fields with different names
      have changed places. */
  ghost predicate SameByName(a: seq<Field>, b: seq<Field>) {
    forall name :: Named(a, name) == Named(b, name)
  }

  lemma {:induction false} NamedAppend(a: seq<Field>, b: seq<Field>, name: string)
    ensures Named(a + b, name) == Named(a, name) + Named(b, name)
  {
    if b == [] {
      assert a + b == a;
    } else {
      var n := |b| - 1;
      NamedAppend(a, b[..n], name);
      assert (a + b)[..|a + b| - 1] == a + b[..n];
    }
  }

  /** The last field called `name`. */
  lemma {:induction false} LastNamed(fields: seq<Field>, name: string) returns (p: nat)
    requires Named(fields, name) != []
    ensures p < |fields| && fields[p].0 == name
    ensures var values := Named(fields, name); fields[p].1 == values[|values| - 1]
    ensures forall k :: p < k < |fields| ==> fields[k].0 != name
  {
    var n := |fields| - 1;
    if fields[n].0 == name {
      p := n;
    } else {
      p := LastNamed(fields[..n], name);
    }
  }

  lemma {:induction false} NotNamed(fields: seq<Field>, name: string)
    requires forall k :: 0 <= k < |fields| ==> fields[k].0 != name
    ensures Named(fields, name) == []
  {
    if fields != [] { NotNamed(fields[..|fields| - 1], name); }
  }

  lemma SnocEqual<T>(a: seq<T>, b: seq<T>, x: T)
    requires a + [x] == b + [x]
    ensures a == b
  {
    assert a == (a + [x])[..|a|] && b == (b + [x])[..|b|];
  }

  lemma NamedWithout(before: seq<Field>, x: Field, after: seq<Field>, name: string)
    requires forall k :: 0 <= k < |after| ==> after[k].0 != x.0
    ensures Named(before + [x] + after, name) ==
            if x.0 == name then Named(before + after, name) + [x.1] else Named(before + after, name)
  {
    NamedAppend(before + [x], after, name);
    NamedAppend(before, [x], name);
    NamedAppend(before, after, name);
    var none: seq<Field> := [];
    assert [x][..0] == none;
    assert Named([x], name) == Named(none, name) + if x.0 == name then [x.1] else [];
    if x.0 == name { NotNamed(after, name); }
  }

  lemma NothingNamed(fields: seq<Field>)
    requires forall name :: Named(fields, name) == []
    ensures fields == []
  {
    if fields != [] {
      NamedLast(fields);
    }
  }

  lemma NamedLast(fields: seq<Field>)
    requires fields != []
    ensures Named(fields, fields[|fields| - 1].0) != []
  {
  }

  lemma SameWithout(a: seq<Field>, x: Field, before: seq<Field>, after: seq<Field>)
    requires SameByName(a + [x], before + [x] + after)
    requires forall k :: 0 <= k < |after| ==> after[k].0 != x.0
    ensures SameByName(a, before + after)
  {
    var none: seq<Field> := [];
    forall name ensures Named(a, name) == Named(before + after, name) {
      assert Named(a + [x], name) == Named(before + [x] + after, name);
      NamedWithout(before, x, after, name);
      NamedWithout(a, x, none, name);
      assert a + [x] + none == a + [x] && a + none == a;
      if x.0 == name { SnocEqual(Named(a, name), Named(before + after, name), x.1); }
    }
  }

  /** Decoding depends only on the values given for each name: if fields with different
      names change places, the struct is the same. */
  lemma {:induction false} OrderIsImmaterial<S(!new)>(shape: Shape<S>, s: S, a: seq<Field>, b: seq<Field>)
    requires Commutes(shape) && SameByName(a, b) && Fill(shape, s, b).Ok?
    ensures Fill(shape, s, a) == Fill(shape, s, b)
    decreases |a|
  {
    if a == [] {
      NothingNamed(b);
    } else {
      var n := |a| - 1;
      var x := a[n];
      assert Named(a, x.0) == Named(a[..n], x.0) + [x.1];
      var p := LastNamed(b, x.0);
      var before, after := b[..p], b[p + 1..];
      assert b[p] == x && b == before + [x] + after;
      MoveToEnd(shape, s, before, x, after);
      FillAdd(shape, s, before + after, x);
      assert a == a[..n] + [x];
      FillAdd(shape, s, a[..n], x);
      SameWithout(a[..n], x, before, after);
      OrderIsImmaterial(shape, s, a[..n], before + after);
    }
  }

  lemma {:induction false} PresentIsNamed(fields: seq<Field>, name: string)
    ensures Present(fields, name) <==> Named(fields, name) != []
  {
    if Named(fields, name) != [] {
      var p := LastNamed(fields, name);
    } else if Present(fields, name) {
      NamedSome(fields, name);
    }
  }

  lemma {:induction false} NamedSome(fields: seq<Field>, name: string)
    requires Present(fields, name)
    ensures Named(fields, name) != []
  {
    var n := |fields| - 1;
    if fields[n].0 != name {
      var k :| 0 <= k < |fields| && fields[k].0 == name;
      assert fields[..n][k].0 == name;
      NamedSome(fields[..n], name);
    }
  }

  /** Objects that give the same names miss the same required fields. */
  lemma MissingAlike<S>(shape: Shape<S>, a: seq<Field>, b: seq<Field>)
    requires WellShaped(shape) && Distinct(shape.names)
    requires forall name :: Present(a, name) <==> Present(b, name)
    ensures MissingFrom(shape, a, 0) == [] <==> MissingFrom(shape, b, 0) == []
  {
    var missingA, missingB := MissingFrom(shape, a, 0), MissingFrom(shape, b, 0);
    if missingA != [] { MissingHolds(shape, a, 0, missingA[0]); MissingHolds(shape, b, 0, missingA[0]); }
    if missingB != [] { MissingHolds(shape, a, 0, missingB[0]); MissingHolds(shape, b, 0, missingB[0]); }
  }

  /** Reordering fields with different names changes neither whether an object decodes nor
      to what. */
  lemma Reordering<S(!new)>(shape: Shape<S>, s: S, a: seq<Field>, b: seq<Field>)
    requires WellShaped(shape) && Distinct(shape.names) && Commutes(shape) && SameByName(a, b)
    ensures var ra, rb := Decoded(shape, s, Obj(a)), Decoded(shape, s, Obj(b));
            (ra.Ok? <==> rb.Ok?) && (ra.Ok? ==> ra == rb)
  {
    if Fill(shape, s, b).Ok? { OrderIsImmaterial(shape, s, a, b); }
    if Fill(shape, s, a).Ok? { OrderIsImmaterial(shape, s, b, a); }
    forall name ensures Present(a, name) <==> Present(b, name) {
      PresentIsNamed(a, name);
      PresentIsNamed(b, name);
    }
    MissingAlike(shape, a, b);
  }

  lemma PrefixFills<S>(shape: Shape<S>, s: S, a: seq<Field>, b: seq<Field>)
    requires Fill(shape, s, a + b).Ok?
    ensures Fill(shape, s, a).Ok?
  {
    FilledIsPrefix(shape, s, a + b, |a|);
    assert (a + b)[..|a|] == a;
    if Fill(shape, s, a).Err? { FailureStays(shape, s, a + b, |a|, |a + b|); }
  }

  lemma AddOverwrites<S(!new)>(shape: Shape<S>, before: Result<S, Error>, x: Field, y: Field)
    requires x.0 == y.0 && IndexOf(shape.names, x.0) >= 0 && Overwrites(shape, IndexOf(shape.names, x.0))
    requires Add(shape, Add(shape, before, x), y).Ok?
    ensures Add(shape, before, y) == Add(shape, Add(shape, before, x), y)
  {
    var i := IndexOf(shape.names, x.0);
    assert Both(shape, before.value, i, x.1, i, y.1).Some?;
    assert shape.assign(before.value, i, y.1) == Both(shape, before.value, i, x.1, i, y.1);
  }

  /** The first later field of the same name does away with `x`. */
  lemma Superseded<S(!new)>(shape: Shape<S>, s: S, before: seq<Field>, x: Field, mid: seq<Field>, y: Field,
                            rest: seq<Field>)
    requires Commutes(shape) && x.0 == y.0 && forall k :: 0 <= k < |mid| ==> mid[k].0 != x.0
    requires IndexOf(shape.names, x.0) >= 0 && Overwrites(shape, IndexOf(shape.names, x.0))
    requires Fill(shape, s, before + [x] + mid + [y]).Ok?
    ensures Fill(shape, s, before + [x] + mid + [y] + rest) == Fill(shape, s, before + mid + [y] + rest)
  {
    FillAdd(shape, s, before + [x] + mid, y);
    MoveToEnd(shape, s, before, x, mid);
    FillAdd(shape, s, before + mid, x);
    AddOverwrites(shape, Fill(shape, s, before + mid), x, y);
    FillAdd(shape, s, before + mid, y);
    FillAppend(shape, s, before + [x] + mid + [y], before + mid + [y], rest);
  }

  lemma {:induction false} FirstNamed(fields: seq<Field>, name: string) returns (p: nat)
    requires Present(fields, name)
    ensures p < |fields| && fields[p].0 == name && forall k :: 0 <= k < p ==> fields[k].0 != name
  {
    var n := |fields| - 1;
    if Present(fields[..n], name) {
      p := FirstNamed(fields[..n], name);
    } else {
      p := n;
      forall k | 0 <= k < n ensures fields[k].0 != name { assert fields[..n][k] == fields[k]; }
    }
  }

  /** A repeated field takes its last value: an earlier one can be dropped. */
  lemma LastValueWins<S(!new)>(shape: Shape<S>, s: S, before: seq<Field>, x: Field, after: seq<Field>)
    requires WellShaped(shape) && Distinct(shape.names) && Commutes(shape) && Present(after, x.0)
    requires IndexOf(shape.names, x.0) >= 0 && Overwrites(shape, IndexOf(shape.names, x.0))
    requires Decoded(shape, s, Obj(before + [x] + after)).Ok?
    ensures Decoded(shape, s, Obj(before + after)) == Decoded(shape, s, Obj(before + [x] + after))
  {
    var p := FirstNamed(after, x.0);
    var mid, y, rest := after[..p], after[p], after[p + 1..];
    assert after == mid + [y] + rest;
    assert before + [x] + after == before + [x] + mid + [y] + rest;
    assert before + after == before + mid + [y] + rest;
    PrefixFills(shape, s, before + [x] + mid + [y], rest);
    Superseded(shape, s, before, x, mid, y, rest);
    PresentWithout(before, x, after);
    MissingAlike(shape, before + [x] + after, before + after);
  }

  lemma PresentWithout(before: seq<Field>, x: Field, after: seq<Field>)
    requires Present(after, x.0)
    ensures forall name :: Present(before + [x] + after, name) <==> Present(before + after, name)
  {
    forall name ensures Present(before + [x] + after, name) <==> Present(before + after, name) {
      PresentAppend(before + [x], after, name);
      PresentAppend(before, [x], name);
      PresentAppend(before, after, name);
    }
  }

  lemma PresentAppend(a: seq<Field>, b: seq<Field>, name: string)
    ensures Present(a + b, name) <==> Present(a, name) || Present(b, name)
  {
    if Present(a, name) {
      var k :| 0 <= k < |a| && a[k].0 == name;
      assert (a + b)[k].0 == name;
    }
    if Present(b, name) {
      var k :| 0 <= k < |b| && b[k].0 == name;
      assert (a + b)[|a| + k].0 == name;
    }
  }
}
