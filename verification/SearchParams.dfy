/** Turning search parameters into a query key: a stable sort by name, then grouping. */
module SearchParams {
  type Entry = (string, string)

  datatype Grouped = One(value: string) | Many(values: seq<string>)

  // ----- the specification -----

  /** The values under `name`, in order. */
  function ValuesOf(entries: seq<Entry>, name: string): seq<string> {
    if entries == [] then []
    else
      var last := entries[|entries| - 1];
      ValuesOf(entries[..|entries| - 1], name) + if last.0 == name then [last.1] else []
  }

  ghost predicate SameValues(a: seq<Entry>, b: seq<Entry>) {
    forall name :: ValuesOf(a, name) == ValuesOf(b, name)
  }

  /** A single value stands alone; several make an array. */
  predicate Shows(g: Grouped, values: seq<string>) {
    if |values| == 1 then g == One(values[0]) else g == Many(values)
  }

  ghost predicate IsKeyOf(result: map<string, Grouped>, entries: seq<Entry>) {
    forall name ::
      && (name in result <==> ValuesOf(entries, name) != [])
      && (name in result ==> Shows(result[name], ValuesOf(entries, name)))
  }

  // ----- the sort -----

  /** `Array.prototype.sort` is stable: an entry goes behind those that compare equal. */
  function Insert(compare: (string, string) -> int, sorted: seq<Entry>, entry: Entry): seq<Entry> {
    if sorted == [] || compare(sorted[|sorted| - 1].0, entry.0) <= 0 then sorted + [entry]
    else Insert(compare, sorted[..|sorted| - 1], entry) + [sorted[|sorted| - 1]]
  }

  function Sort(compare: (string, string) -> int, entries: seq<Entry>): seq<Entry> {
    if entries == [] then []
    else Insert(compare, Sort(compare, entries[..|entries| - 1]), entries[|entries| - 1])
  }

  ghost predicate Reflexive(compare: (string, string) -> int) {
    forall name :: compare(name, name) == 0
  }

  lemma ValuesSnoc(entries: seq<Entry>, entry: Entry, name: string)
    ensures ValuesOf(entries + [entry], name) ==
            if entry.0 == name then ValuesOf(entries, name) + [entry.1] else ValuesOf(entries, name)
  {
    assert (entries + [entry])[..|entries|] == entries;
  }

  lemma {:induction false} InsertKeepsValues(compare: (string, string) -> int, sorted: seq<Entry>, entry: Entry,
                                             name: string)
    requires Reflexive(compare)
    ensures ValuesOf(Insert(compare, sorted, entry), name) == ValuesOf(sorted + [entry], name)
  {
    if sorted != [] && compare(sorted[|sorted| - 1].0, entry.0) > 0 {
      var most, last := sorted[..|sorted| - 1], sorted[|sorted| - 1];
      assert last.0 != entry.0;
      assert sorted == most + [last];
      InsertKeepsValues(compare, most, entry, name);
      ValuesSnoc(Insert(compare, most, entry), last, name);
      ValuesSnoc(most, entry, name);
      ValuesSnoc(most, last, name);
      ValuesSnoc(sorted, entry, name);
    }
  }

  /** Sorting by name leaves the order of each name's values alone, whatever the locale's
      order is. */
  lemma {:induction false} SortKeepsValues(compare: (string, string) -> int, entries: seq<Entry>)
    requires Reflexive(compare)
    ensures SameValues(Sort(compare, entries), entries)
  {
    if entries != [] {
      var most, last := entries[..|entries| - 1], entries[|entries| - 1];
      SortKeepsValues(compare, most);
      assert entries == most + [last];
      forall name ensures ValuesOf(Sort(compare, entries), name) == ValuesOf(entries, name) {
        InsertKeepsValues(compare, Sort(compare, most), last, name);
        ValuesSnoc(Sort(compare, most), last, name);
        ValuesSnoc(most, last, name);
      }
    }
  }

  /** The locale's order, as far as sorting relies on it. */
  ghost predicate IsOrder(compare: (string, string) -> int) {
    && (forall a, b :: compare(a, b) <= 0 || compare(b, a) <= 0)
    && (forall a, b, c :: compare(a, b) <= 0 && compare(b, c) <= 0 ==> compare(a, c) <= 0)
  }

  ghost predicate InOrder(compare: (string, string) -> int, names: seq<string>) {
    forall i, j :: 0 <= i < j < |names| ==> compare(names[i], names[j]) <= 0
  }

  function Names(entries: seq<Entry>): (names: seq<string>)
    ensures |names| == |entries| && forall i :: 0 <= i < |entries| ==> names[i] == entries[i].0
  {
    seq(|entries|, i requires 0 <= i < |entries| => entries[i].0)
  }

  lemma {:induction false} InsertedNames(compare: (string, string) -> int, sorted: seq<Entry>, entry: Entry,
                                         name: string)
    ensures name in Names(Insert(compare, sorted, entry)) <==> name in Names(sorted) || name == entry.0
  {
    if sorted == [] || compare(sorted[|sorted| - 1].0, entry.0) <= 0 {
      assert Names(sorted + [entry]) == Names(sorted) + [entry.0];
    } else {
      var most, last := sorted[..|sorted| - 1], sorted[|sorted| - 1];
      InsertedNames(compare, most, entry, name);
      assert Names(Insert(compare, most, entry) + [last]) == Names(Insert(compare, most, entry)) + [last.0];
      assert sorted == most + [last] && Names(sorted) == Names(most) + [last.0];
    }
  }

  lemma SnocInOrder(compare: (string, string) -> int, names: seq<string>, last: string)
    requires InOrder(compare, names) && forall i :: 0 <= i < |names| ==> compare(names[i], last) <= 0
    ensures InOrder(compare, names + [last])
  {
  }

  lemma AllBefore(compare: (string, string) -> int, names: seq<string>, last: string)
    requires IsOrder(compare) && InOrder(compare, names)
    requires names == [] || compare(names[|names| - 1], last) <= 0
    ensures forall i :: 0 <= i < |names| ==> compare(names[i], last) <= 0
  {
    forall i | 0 <= i < |names| ensures compare(names[i], last) <= 0 {
      if i < |names| - 1 { assert compare(names[i], names[|names| - 1]) <= 0; }
    }
  }

  lemma InsertedLast(compare: (string, string) -> int, sorted: seq<Entry>, entry: Entry)
    requires IsOrder(compare) && InOrder(compare, Names(sorted))
    requires sorted == [] || compare(sorted[|sorted| - 1].0, entry.0) <= 0
    ensures InOrder(compare, Names(sorted + [entry]))
  {
    AllBefore(compare, Names(sorted), entry.0);
    SnocInOrder(compare, Names(sorted), entry.0);
    assert Names(sorted + [entry]) == Names(sorted) + [entry.0];
  }

  lemma LastStays(compare: (string, string) -> int, most: seq<Entry>, last: Entry, entry: Entry)
    requires IsOrder(compare) && compare(last.0, entry.0) > 0
    requires forall i :: 0 <= i < |most| ==> compare(most[i].0, last.0) <= 0
    requires InOrder(compare, Names(Insert(compare, most, entry)))
    ensures InOrder(compare, Names(Insert(compare, most, entry) + [last]))
  {
    var rest := Names(Insert(compare, most, entry));
    assert compare(entry.0, last.0) <= 0;
    forall i | 0 <= i < |rest| ensures compare(rest[i], last.0) <= 0 {
      InsertedNames(compare, most, entry, rest[i]);
      if rest[i] in Names(most) {
        var k :| 0 <= k < |most| && Names(most)[k] == rest[i];
      }
    }
    SnocInOrder(compare, rest, last.0);
    assert Names(Insert(compare, most, entry) + [last]) == rest + [last.0];
  }

  lemma {:induction false} InsertSorts(compare: (string, string) -> int, sorted: seq<Entry>, entry: Entry)
    requires IsOrder(compare) && InOrder(compare, Names(sorted))
    ensures InOrder(compare, Names(Insert(compare, sorted, entry)))
  {
    if sorted == [] || compare(sorted[|sorted| - 1].0, entry.0) <= 0 {
      InsertedLast(compare, sorted, entry);
    } else {
      var most, last := sorted[..|sorted| - 1], sorted[|sorted| - 1];
      assert sorted == most + [last];
      InOrderParts(compare, most, last);
      InsertSorts(compare, most, entry);
      LastStays(compare, most, last, entry);
    }
  }

  lemma InOrderParts(compare: (string, string) -> int, most: seq<Entry>, last: Entry)
    requires InOrder(compare, Names(most + [last]))
    ensures InOrder(compare, Names(most)) && forall i :: 0 <= i < |most| ==> compare(most[i].0, last.0) <= 0
  {
    var names := Names(most + [last]);
    assert forall i :: 0 <= i < |most| ==> names[i] == most[i].0;
    assert names[|most|] == last.0;
  }

  /** Sorting sorts: no name comes before one that the locale puts in front of it. */
  lemma {:induction false} SortSorts(compare: (string, string) -> int, entries: seq<Entry>)
    requires IsOrder(compare)
    ensures InOrder(compare, Names(Sort(compare, entries)))
  {
    if entries != [] {
      SortSorts(compare, entries[..|entries| - 1]);
      InsertSorts(compare, Sort(compare, entries[..|entries| - 1]), entries[|entries| - 1]);
    }
  }

  // ----- the grouping loop -----

  /** The names of an object in the order in which they were set. */
  ghost predicate IsOrderOf(order: seq<string>, result: map<string, Grouped>) {
    && (forall name :: name in order <==> name in result)
    && (forall i, j :: 0 <= i < j < |order| ==> order[i] != order[j])
  }

  /** The order in which the first `n` names have been set. */
  ghost predicate Follows(compare: (string, string) -> int, names: seq<string>, n: nat, order: seq<string>,
                          result: map<string, Grouped>)
    requires n <= |names|
  {
    && IsOrderOf(order, result) && AllAmong(order, names[..n])
    && (InOrder(compare, names) ==> InOrder(compare, order))
  }

  lemma FollowsNext(compare: (string, string) -> int, names: seq<string>, n: nat, order: seq<string>,
                    before: map<string, Grouped>, after: map<string, Grouped>)
    requires n < |names| && Follows(compare, names, n, order, before)
    requires names[n] in after && after == before[names[n] := after[names[n]]]
    ensures Follows(compare, names, n + 1, if names[n] in before then order else order + [names[n]], after)
  {
    assert names[..n + 1] == names[..n] + [names[n]];
    NewName(compare, names, n, order);
  }

  /** What the grouping has come to after `n` entries. */
  ghost predicate Groups(compare: (string, string) -> int, entries: seq<Entry>, n: nat, order: seq<string>,
                         result: map<string, Grouped>)
    requires n <= |entries|
  {
    IsKeyOf(result, entries[..n]) && Follows(compare, Names(entries), n, order, result)
  }

  lemma GroupsNone(compare: (string, string) -> int, entries: seq<Entry>)
    ensures Groups(compare, entries, 0, [], map[])
  {
    assert entries[..0] == [];
  }

  /** What stands under `key` with one more value. */
  function Regrouped(before: map<string, Grouped>, key: string, value: string): Grouped {
    if key !in before then One(value)
    else if before[key].Many? then Many(before[key].values + [value])
    else Many([before[key].value, value])
  }

  lemma GroupsNext(compare: (string, string) -> int, entries: seq<Entry>, n: nat, order: seq<string>,
                   before: map<string, Grouped>)
    requires n < |entries| && Groups(compare, entries, n, order, before)
    ensures var (key, value) := entries[n];
            Groups(compare, entries, n + 1, if key in before then order else order + [key],
                   before[key := Regrouped(before, key, value)])
  {
    var (key, value) := entries[n];
    var after := before[key := Regrouped(before, key, value)];
    assert entries[..n + 1] == entries[..n] + [entries[n]];
    KeyGrows(before, after, entries[..n], entries[n]);
    FollowsNext(compare, Names(entries), n, order, before, after);
  }

  lemma GroupsAll(compare: (string, string) -> int, params: seq<Entry>, order: seq<string>,
                  result: map<string, Grouped>)
    requires Reflexive(compare)
    requires var entries := Sort(compare, params); Groups(compare, entries, |entries|, order, result)
    ensures IsKeyOf(result, params)
    ensures IsOrderOf(order, result) && (IsOrder(compare) ==> InOrder(compare, order))
  {
    var entries := Sort(compare, params);
    assert entries[..|entries|] == entries;
    SortKeepsValues(compare, params);
    KeyCarries(result, entries, params);
    if IsOrder(compare) { SortSorts(compare, params); }
  }

  /** The body of the loop over the sorted entries. */
  method AddEntry(before: map<string, Grouped>, names: seq<string>, key: string, value: string)
    returns (result: map<string, Grouped>, order: seq<string>)
    ensures result == before[key := Regrouped(before, key, value)]
    ensures order == if key in before then names else names + [key]
  {
    order := names;
    if key !in before {
      result := before[key := One(value)];
      order := order + [key];
    } else if before[key].Many? {
      result := before[key := Many(before[key].values + [value])];
    } else {
      result := before[key := Many([before[key].value, value])];
    }
  }

  /** The object's properties, and the order in which they were set. */
  method SerializeSearchParams(compare: (string, string) -> int, params: seq<Entry>)
    returns (result: map<string, Grouped>, order: seq<string>)
    requires Reflexive(compare)
    ensures IsKeyOf(result, params)
    ensures IsOrderOf(order, result) && (IsOrder(compare) ==> InOrder(compare, order))
  {
    var entries := Sort(compare, params);
    GroupsNone(compare, entries);
    result, order := map[], [];
    for n := 0 to |entries|
      invariant Groups(compare, entries, n, order, result)
    {
      GroupsNext(compare, entries, n, order, result);
      result, order := AddEntry(result, order, entries[n].0, entries[n].1);
    }
    GroupsAll(compare, params, order, result);
  }

  predicate AllAmong(order: seq<string>, names: seq<string>) {
    forall i :: 0 <= i < |order| ==> order[i] in names
  }

  lemma NewName(compare: (string, string) -> int, names: seq<string>, n: nat, order: seq<string>)
    requires n < |names| && AllAmong(order, names[..n])
    ensures InOrder(compare, names) && InOrder(compare, order) ==> InOrder(compare, order + [names[n]])
  {
    if InOrder(compare, names) && InOrder(compare, order) {
      forall i | 0 <= i < |order| ensures compare(order[i], names[n]) <= 0 {
        var k :| 0 <= k < n && names[..n][k] == order[i];
        assert compare(names[k], names[n]) <= 0;
      }
      SnocInOrder(compare, order, names[n]);
    }
  }

  lemma KeyGrows(before: map<string, Grouped>, after: map<string, Grouped>, entries: seq<Entry>, entry: Entry)
    requires IsKeyOf(before, entries)
    requires entry.0 in after && after == before[entry.0 := after[entry.0]]
    requires entry.0 !in before ==> after[entry.0] == One(entry.1)
    requires entry.0 in before ==>
               var g := before[entry.0];
               after[entry.0] == Many((if g.Many? then g.values else [g.value]) + [entry.1])
    ensures IsKeyOf(after, entries + [entry])
  {
    forall name ensures (name in after <==> ValuesOf(entries + [entry], name) != []) &&
                        (name in after ==> Shows(after[name], ValuesOf(entries + [entry], name)))
    {
      ValuesSnoc(entries, entry, name);
      assert name in before <==> ValuesOf(entries, name) != [];
    }
  }

  lemma KeyCarries(result: map<string, Grouped>, a: seq<Entry>, b: seq<Entry>)
    requires IsKeyOf(result, a) && SameValues(a, b)
    ensures IsKeyOf(result, b)
  {
    forall name ensures (name in result <==> ValuesOf(b, name) != []) &&
                        (name in result ==> Shows(result[name], ValuesOf(b, name)))
    {
      assert ValuesOf(a, name) == ValuesOf(b, name);
      assert name in result <==> ValuesOf(a, name) != [];
    }
  }

  /** Two sets of parameters get the same key exactly when they give each name the same
      values in the same order: other reorderings do not matter, and nothing else is lost. */
  lemma SameKeyExactly(a: seq<Entry>, keyA: map<string, Grouped>, b: seq<Entry>, keyB: map<string, Grouped>)
    requires IsKeyOf(keyA, a) && IsKeyOf(keyB, b)
    ensures keyA == keyB <==> SameValues(a, b)
  {
    if keyA == keyB {
      forall name ensures ValuesOf(a, name) == ValuesOf(b, name) {
        assert name in keyA <==> ValuesOf(a, name) != [];
        assert name in keyB <==> ValuesOf(b, name) != [];
      }
    }
    if SameValues(a, b) {
      KeyCarries(keyA, a, b);
      forall name ensures (name in keyA <==> name in keyB) && (name in keyA ==> keyA[name] == keyB[name]) {
        assert name in keyA <==> ValuesOf(b, name) != [];
        assert name in keyB <==> ValuesOf(b, name) != [];
      }
    }
  }

  // ----- the order of the names -----

  /** Only equal names compare as equal. */
  ghost predicate Separates(compare: (string, string) -> int) {
    forall a, b :: compare(a, b) <= 0 && compare(b, a) <= 0 ==> a == b
  }

  /** Equal keys then set their names in the same order, so the object is the same to the letter. */
  lemma {:induction false} OrderIsDetermined(compare: (string, string) -> int, a: seq<string>, b: seq<string>)
    requires Separates(compare) && InOrder(compare, a) && InOrder(compare, b)
    requires (forall i, j :: 0 <= i < j < |a| ==> a[i] != a[j]) && (forall i, j :: 0 <= i < j < |b| ==> b[i] != b[j])
    requires forall name :: name in a <==> name in b
    ensures a == b
    decreases |a|
  {
    if a == [] {
      if b != [] { FirstIsFirst(compare, b, a); }
    } else {
      assert a[0] in a;
      FirstIsFirst(compare, a, b);
      var (restA, restB) := (a[1..], b[1..]);
      forall name ensures name in restA <==> name in restB {
        assert a == [a[0]] + restA && b == [b[0]] + restB;
        assert name in a <==> name == a[0] || name in restA;
        assert name in b <==> name == b[0] || name in restB;
      }
      OrderIsDetermined(compare, restA, restB);
    }
  }

  lemma FirstIsFirst(compare: (string, string) -> int, a: seq<string>, b: seq<string>)
    requires Separates(compare) && InOrder(compare, a) && InOrder(compare, b) && a != []
    requires forall name :: name in a <==> name in b
    ensures b != [] && a[0] == b[0]
  {
    assert a[0] in b;
    var i :| 0 <= i < |b| && b[i] == a[0];
    assert b[0] in a;
    var j :| 0 <= j < |a| && a[j] == b[0];
    if i > 0 && j > 0 {
      assert compare(b[0], b[i]) <= 0 && compare(a[0], a[j]) <= 0;
    }
  }
}
