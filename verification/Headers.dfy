/** Merging of request headers, and the client configuration that re-applies it. */
module Headers {
  import opened HeaderText
  import opened Text
  import opened Wrappers

  // ----- a Headers object -----

  function LowerChar(c: char): char {
    if 'A' <= c <= 'Z' then (c as int + 32) as char else c
  }

  function Lower(name: string): string {
    seq(|name|, i requires 0 <= i < |name| => LowerChar(name[i]))
  }

  const UPPER_CASE := "ABCDEFGHIJKLMNOPQRSTUVWXYZ"
  const LOWER_CASE := "abcdefghijklmnopqrstuvwxyz"

  predicate IsCaseOf(c: char, i: nat)
    requires i < 26
  {
    c == UPPER_CASE[i] || c == LOWER_CASE[i]
  }

  /** Equal, or the two cases of one letter. */
  ghost predicate SameLetter(c: char, d: char) {
    c == d || exists i :: 0 <= i < 26 && IsCaseOf(c, i) && IsCaseOf(d, i)
  }

  /** The names of one header: they differ in nothing but the case of ASCII letters. */
  ghost predicate SameHeader(a: string, b: string) {
    |a| == |b| && forall i :: 0 <= i < |a| ==> SameLetter(a[i], b[i])
  }

  lemma LetterAt(i: nat)
    requires i < 26
    ensures UPPER_CASE[i] as int == 'A' as int + i && LOWER_CASE[i] as int == 'a' as int + i
  {
    assert forall k :: 0 <= k < 26 ==> UPPER_CASE[k] as int == 65 + k && LOWER_CASE[k] as int == 97 + k;
  }

  lemma LowerSameLetter(c: char, d: char)
    ensures LowerChar(c) == LowerChar(d) <==> SameLetter(c, d)
  {
    forall i | 0 <= i < 26
      ensures UPPER_CASE[i] as int == 'A' as int + i && LOWER_CASE[i] as int == 'a' as int + i
    {
      LetterAt(i);
    }
    if LowerChar(c) == LowerChar(d) && c != d {
      var i := LowerChar(c) as int - 'a' as int;
      assert 0 <= i < 26;
      assert IsCaseOf(c, i) && IsCaseOf(d, i);
    }
  }

  /** Two names are stored under one key exactly when they are names of one header. */
  lemma LowerExactly(a: string, b: string)
    ensures Lower(a) == Lower(b) <==> SameHeader(a, b)
    ensures Lower("Set-Cookie") == SET_COOKIE
  {
    forall i | 0 <= i < |a| && i < |b| ensures LowerChar(a[i]) == LowerChar(b[i]) <==> SameLetter(a[i], b[i]) {
      LowerSameLetter(a[i], b[i]);
    }
    assert |Lower(a)| == |a| && |Lower(b)| == |b|;
    if Lower(a) == Lower(b) {
      forall i | 0 <= i < |a| ensures SameLetter(a[i], b[i]) {
        assert Lower(a)[i] == LowerChar(a[i]) && Lower(b)[i] == LowerChar(b[i]);
      }
    }
  }

  /** The stored values under each lower-case name. */
  type Store = map<string, seq<string>>

  const SET_COOKIE := "set-cookie"

  function Get(h: Store, name: string): Option<string> {
    if name in h then Some(Join(h[name], ", ")) else None
  }

  function SetHeader(h: Store, key: string, value: string): Store {
    h[Lower(key) := [Trim(value)]]
  }

  function AppendHeader(h: Store, key: string, value: string): Store {
    h[Lower(key) := (if Lower(key) in h then h[Lower(key)] else []) + [Trim(value)]]
  }

  function AppendAll(h: Store, key: string, values: seq<string>): Store {
    if values == [] then h
    else AppendHeader(AppendAll(h, key, values[..|values| - 1]), key, values[|values| - 1])
  }

  // ----- the layers that are merged -----

  /** A header option: undefined, null, an array, or one text (an object as JSON). */
  datatype HeaderValue = Unset | Remove | Many(values: seq<string>) | One(text: string)

  datatype Layer = Missing | Plain(entries: seq<(string, HeaderValue)>) | Built(headers: Store)

  function MergeEntry(h: Store, key: string, value: HeaderValue): Store {
    match value
    case Unset => h
    case Remove => h - {Lower(key)}
    case Many(values) => AppendAll(h, key, values)
    case One(text) => SetHeader(h, key, text)
  }

  function MergeEntries(h: Store, entries: seq<(string, HeaderValue)>): Store {
    if entries == [] then h
    else
      var last := entries[|entries| - 1];
      MergeEntry(MergeEntries(h, entries[..|entries| - 1]), last.0, last.1)
  }

  /** What iterating a Headers object leaves under a name once every entry has been
      set: names are visited once with their values combined, except that each
      Set-Cookie value is visited on its own, so that the last one stays. */
  function Combined(name: string, values: seq<string>): string {
    if name == SET_COOKIE && values != [] then Trim(values[|values| - 1]) else Trim(Join(values, ", "))
  }

  function Overwrite(h: Store, headers: Store): Store {
    h + map name | name in headers :: [Combined(name, headers[name])]
  }

  function MergeLayer(h: Store, layer: Layer): Store {
    match layer
    case Missing => h
    case Plain(entries) => MergeEntries(h, entries)
    case Built(headers) => Overwrite(h, headers)
  }

  /** `mergeHeaders` */
  function Merge(layers: seq<Layer>): Store {
    if layers == [] then map[]
    else MergeLayer(Merge(layers[..|layers| - 1]), layers[|layers| - 1])
  }

  method MergeHeaders(layers: seq<Layer>) returns (merged: Store)
    ensures merged == Merge(layers)
  {
    merged := map[];
    for i := 0 to |layers|
      invariant merged == Merge(layers[..i])
    {
      assert layers[..i + 1][..i] == layers[..i];
      match layers[i]
      case Missing =>
      case Built(headers) =>
        merged := Overwrite(merged, headers);
      case Plain(entries) =>
        ghost var before := merged;
        for k := 0 to |entries|
          invariant merged == MergeEntries(before, entries[..k])
        {
          assert entries[..k + 1][..k] == entries[..k];
          merged := MergeEntry(merged, entries[k].0, entries[k].1);
        }
        assert entries[..|entries|] == entries;
    }
    assert layers[..|layers|] == layers;
  }

  // ----- what a layer does to one name -----

  /** The effect of an entry on the looked-up value of `name`. */
  function EntryEffect(name: string, key: string, value: HeaderValue, before: Option<string>): Option<string> {
    if Lower(key) != name then before
    else match value
      case Unset => before
      case Remove => None
      case One(text) => Some(Trim(text))
      case Many(values) => AppendEffect(values, before)
  }

  function AppendEffect(values: seq<string>, before: Option<string>): Option<string> {
    if values == [] then before
    else
      var (init, last) := (AppendEffect(values[..|values| - 1], before), Trim(values[|values| - 1]));
      if init.None? then Some(last) else Some(init.value + ", " + last)
  }

  function EntriesEffect(name: string, entries: seq<(string, HeaderValue)>, before: Option<string>): Option<string> {
    if entries == [] then before
    else
      var last := entries[|entries| - 1];
      EntryEffect(name, last.0, last.1, EntriesEffect(name, entries[..|entries| - 1], before))
  }

  function Effect(name: string, layer: Layer, before: Option<string>): Option<string> {
    match layer
    case Missing => before
    case Plain(entries) => EntriesEffect(name, entries, before)
    case Built(headers) => if name in headers then Some(Combined(name, headers[name])) else before
  }

  function FlatEffect(name: string, layers: seq<Layer>): Option<string> {
    if layers == [] then None
    else Effect(name, layers[|layers| - 1], FlatEffect(name, layers[..|layers| - 1]))
  }

  /** No name is stored without a value. */
  predicate Stored(h: Store) {
    forall name :: name in h ==> h[name] != []
  }

  lemma {:induction false} JoinMore(values: seq<string>, last: string)
    requires values != []
    ensures Join(values + [last], ", ") == Join(values, ", ") + ", " + last
  {
    var all := values + [last];
    assert all[1..] == values[1..] + [last];
    if |values| == 1 {
      assert all[1..] == [last];
    } else {
      JoinMore(values[1..], last);
    }
  }

  lemma {:induction false} AppendMeans(h: Store, key: string, values: seq<string>, name: string)
    requires Stored(h)
    ensures Stored(AppendAll(h, key, values))
    ensures Get(AppendAll(h, key, values), name) ==
            if Lower(key) == name then AppendEffect(values, Get(h, name)) else Get(h, name)
  {
    if values != [] {
      var init := AppendAll(h, key, values[..|values| - 1]);
      AppendMeans(h, key, values[..|values| - 1], name);
      if name in init { JoinMore(init[name], Trim(values[|values| - 1])); }
    }
  }

  lemma {:induction false} EntriesMean(h: Store, entries: seq<(string, HeaderValue)>, name: string)
    requires Stored(h)
    ensures Stored(MergeEntries(h, entries))
    ensures Get(MergeEntries(h, entries), name) == EntriesEffect(name, entries, Get(h, name))
  {
    if entries != [] {
      var (init, last) := (entries[..|entries| - 1], entries[|entries| - 1]);
      EntriesMean(h, init, name);
      if last.1.Many? { AppendMeans(MergeEntries(h, init), last.0, last.1.values, name); }
    }
  }

  /** Lookup after a layer depends on the lookup before it and on nothing else. */
  lemma LayerMeans(h: Store, layer: Layer, name: string)
    requires Stored(h)
    ensures Stored(MergeLayer(h, layer))
    ensures Get(MergeLayer(h, layer), name) == Effect(name, layer, Get(h, name))
  {
    if layer.Plain? { EntriesMean(h, layer.entries, name); }
  }

  lemma {:induction false} FlatMeans(layers: seq<Layer>, name: string)
    ensures Stored(Merge(layers))
    ensures Get(Merge(layers), name) == FlatEffect(name, layers)
  {
    if layers != [] {
      FlatMeans(layers[..|layers| - 1], name);
      LayerMeans(Merge(layers[..|layers| - 1]), layers[|layers| - 1], name);
    }
  }

  // ----- copying a Headers object -----

  predicate AllTrimmed(values: seq<string>) {
    forall i :: 0 <= i < |values| ==> IsTrimmed(values[i])
  }

  lemma {:induction false} JoinEnds(values: seq<string>)
    requires values != [] && AllTrimmed(values)
    ensures var j := Join(values, ", ");
            && (j != "" ==> !IsHttpSpace(j[0]))
            && (|values| == 1 || values[|values| - 1] != "" ==> j == "" || !IsHttpSpace(j[|j| - 1]))
            && (|values| > 1 && values[|values| - 1] == "" ==> j != "" && j[|j| - 1] == ' ')
            && (|values| > 1 ==> |j| > |values[|values| - 1]| + 1)
  {
    if |values| > 1 {
      JoinEnds(values[1..]);
      var (first, rest) := (values[0], Join(values[1..], ", "));
      var j := Join(values, ", ");
      assert j == first + ", " + rest;
      assert |j| == |first| + 2 + |rest|;
      if |values| == 2 { assert values[1..] == [values[1]]; }
    }
  }

  /** Copying a Headers object by merging it keeps a lookup exactly when there is one
      value, or several of which the last is not empty and the name is not Set-Cookie. */
  lemma CopyExactly(h: Store, name: string)
    requires name in h && h[name] != [] && AllTrimmed(h[name])
    ensures Get(Merge([Built(h)]), name) == Get(h, name) <==>
            |h[name]| == 1 || (name != SET_COOKIE && h[name][|h[name]| - 1] != "")
  {
    var values := h[name];
    var j := Join(values, ", ");
    assert [Built(h)][..0] == [];
    assert Merge([Built(h)]) == MergeLayer(Merge([]), Built(h));
    assert Get(Merge([Built(h)]), name) == Some(Combined(name, values));
    JoinEnds(values);
    TrimExactly(j);
    TrimExactly(values[|values| - 1]);
  }

  // ----- chains of configurations -----

  /** The headers after `setConfig` has merged one layer after the other into the
      client's own Headers object. */
  function Chain(defaults: Layer, layers: seq<Layer>): Store {
    if |layers| == 0 then Merge([defaults])
    else if |layers| == 1 then Merge([defaults, layers[0]])
    else Merge([Built(Chain(defaults, layers[..|layers| - 1])), layers[|layers| - 1]])
  }

  /** No array of the layer puts a blank value under `name`. */
  predicate NoBlanks(layer: Layer, name: string) {
    layer.Plain? ==>
      forall i :: 0 <= i < |layer.entries| && Lower(layer.entries[i].0) == name && layer.entries[i].1.Many? ==>
        forall k :: 0 <= k < |layer.entries[i].1.values| ==> Trim(layer.entries[i].1.values[k]) != ""
  }

  /** A looked-up value that survives copying. */
  predicate Steady(g: Option<string>) {
    g.None? || IsTrimmed(g.value)
  }

  lemma {:induction false} AppendSteady(values: seq<string>, before: Option<string>)
    requires Steady(before)
    requires forall k :: 0 <= k < |values| ==> Trim(values[k]) != ""
    ensures Steady(AppendEffect(values, before))
  {
    if values != [] {
      AppendSteady(values[..|values| - 1], before);
      TrimExactly(values[|values| - 1]);
      var init := AppendEffect(values[..|values| - 1], before);
      if init.Some? {
        var g := init.value + ", " + Trim(values[|values| - 1]);
        assert g[0] == if init.value == "" then ',' else init.value[0];
      }
    }
  }

  lemma {:induction false} EntriesSteady(name: string, entries: seq<(string, HeaderValue)>, before: Option<string>)
    requires Steady(before) && NoBlanks(Plain(entries), name)
    ensures Steady(EntriesEffect(name, entries, before))
  {
    if entries != [] {
      var (init, last) := (entries[..|entries| - 1], entries[|entries| - 1]);
      assert NoBlanks(Plain(init), name) by {
        assert forall i :: 0 <= i < |init| ==> init[i] == Plain(entries).entries[i];
      }
      EntriesSteady(name, init, before);
      match last.1
      case One(text) => TrimExactly(text);
      case Many(values) => if Lower(last.0) == name { AppendSteady(values, EntriesEffect(name, init, before)); }
      case _ =>
    }
  }

  lemma LayerSteady(name: string, layer: Layer, before: Option<string>)
    requires Steady(before) && NoBlanks(layer, name)
    ensures Steady(Effect(name, layer, before))
  {
    match layer
    case Missing =>
    case Plain(entries) => EntriesSteady(name, entries, before);
    case Built(headers) =>
      if name in headers {
        TrimExactly(Join(headers[name], ", "));
        if headers[name] != [] { TrimExactly(headers[name][|headers[name]| - 1]); }
      }
  }

  lemma MergeOfTwo(a: Layer, b: Layer, name: string)
    ensures Stored(Merge([a, b]))
    ensures Get(Merge([a, b]), name) == Effect(name, b, Effect(name, a, None))
  {
    FlatMeans([a, b], name);
    assert [a, b][..1] == [a] && [a][..0] == [];
    assert FlatEffect(name, [a]) == Effect(name, a, FlatEffect(name, []));
  }

  lemma MergeOfOne(a: Layer, name: string)
    ensures Stored(Merge([a])) && Get(Merge([a]), name) == Effect(name, a, None)
  {
    FlatMeans([a], name);
    assert [a][..0] == [];
  }

  lemma FlatSnoc(defaults: Layer, layers: seq<Layer>, name: string)
    requires layers != []
    ensures FlatEffect(name, [defaults] + layers) ==
            Effect(name, layers[|layers| - 1], FlatEffect(name, [defaults] + layers[..|layers| - 1]))
  {
    var all := [defaults] + layers;
    assert all[..|all| - 1] == [defaults] + layers[..|layers| - 1];
  }

  /** Layered merging is flat merging: for every name but Set-Cookie whose arrays hold no
      blank value, any chain of configurations gives the lookup of one fold over all layers. */
  lemma {:induction false} LayeredIsFlat(defaults: Layer, layers: seq<Layer>, name: string)
    requires name != SET_COOKIE && NoBlanks(defaults, name)
    requires forall i :: 0 <= i < |layers| ==> NoBlanks(layers[i], name)
    ensures Get(Chain(defaults, layers), name) == Get(Merge([defaults] + layers), name)
    ensures Stored(Chain(defaults, layers)) && Steady(Get(Chain(defaults, layers), name))
  {
    FlatMeans([defaults] + layers, name);
    LayerSteady(name, defaults, None);
    if |layers| == 0 {
      MergeOfOne(defaults, name);
      assert [defaults] + layers == [defaults];
    } else {
      var n := |layers| - 1;
      var (init, last) := (layers[..n], layers[n]);
      LayeredIsFlat(defaults, init, name);
      FlatMeans([defaults] + init, name);
      FlatSnoc(defaults, layers, name);
      LayerSteady(name, last, Get(Chain(defaults, init), name));
      if |layers| == 1 {
        assert init == [] && layers == [last];
        MergeOfOne(defaults, name);
        MergeOfTwo(defaults, last, name);
      } else {
        var h := Chain(defaults, init);
        MergeOfTwo(Built(h), last, name);
        if name in h { TrimExactly(Join(h[name], ", ")); }
      }
    }
  }
}
