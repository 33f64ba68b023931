/** When re-merging header layers one by one differs from merging them at once. */
module HeaderChains {
  import opened Headers
  import opened HeaderText
  import opened Text
  import opened Wrappers

  /** The entry fixes the value of `name`, whatever it was. */
  predicate EntrySettles(name: string, entry: (string, HeaderValue)) {
    Lower(entry.0) == name && (entry.1.Remove? || entry.1.One?)
  }

  predicate EntriesSettle(name: string, entries: seq<(string, HeaderValue)>) {
    exists i :: 0 <= i < |entries| && EntrySettles(name, entries[i])
  }

  predicate Settles(name: string, layer: Layer) {
    match layer
    case Missing => false
    case Plain(entries) => EntriesSettle(name, entries)
    case Built(headers) => name in headers
  }

  /** What an array appends to a value that is there. */
  function Appended(values: seq<string>): string {
    if values == [] then "" else Appended(values[..|values| - 1]) + (", " + Trim(values[|values| - 1]))
  }

  function EntriesAppend(name: string, entries: seq<(string, HeaderValue)>): string {
    if entries == [] then ""
    else
      var last := entries[|entries| - 1];
      EntriesAppend(name, entries[..|entries| - 1]) +
      if Lower(last.0) == name && last.1.Many? then Appended(last.1.values) else ""
  }

  function LayerAppends(name: string, layer: Layer): string {
    if layer.Plain? then EntriesAppend(name, layer.entries) else ""
  }

  lemma {:induction false} AppendedMeans(values: seq<string>, x: string)
    ensures AppendEffect(values, Some(x)) == Some(x + Appended(values))
  {
    if values == [] {
      assert x + "" == x;
    } else {
      var n := |values| - 1;
      AppendedMeans(values[..n], x);
      Assoc(x, Appended(values[..n]), ", " + Trim(values[n]));
      Assoc(x + Appended(values[..n]), ", ", Trim(values[n]));
    }
  }

  lemma {:induction false} EntriesAppendMeans(name: string, entries: seq<(string, HeaderValue)>, x: string)
    requires !EntriesSettle(name, entries)
    ensures EntriesEffect(name, entries, Some(x)) == Some(x + EntriesAppend(name, entries))
  {
    if entries == [] {
      assert x + "" == x;
    } else {
      var n := |entries| - 1;
      var (init, last) := (entries[..n], entries[n]);
      assert !EntriesSettle(name, init) by {
        assert forall i :: 0 <= i < n ==> init[i] == entries[i];
      }
      EntriesAppendMeans(name, init, x);
      assert !EntrySettles(name, last);
      var y := x + EntriesAppend(name, init);
      if Lower(last.0) == name && last.1.Many? {
        AppendedMeans(last.1.values, y);
        Assoc(x, EntriesAppend(name, init), Appended(last.1.values));
      } else {
        Assoc(x, EntriesAppend(name, init), "");
        assert y + "" == y;
      }
    }
  }

  lemma {:induction false} SettledEntries(name: string, entries: seq<(string, HeaderValue)>,
                                          a: Option<string>, b: Option<string>)
    requires EntriesSettle(name, entries)
    ensures EntriesEffect(name, entries, a) == EntriesEffect(name, entries, b)
  {
    var n := |entries| - 1;
    if !EntrySettles(name, entries[n]) {
      var i :| 0 <= i < |entries| && EntrySettles(name, entries[i]);
      assert entries[..n][i] == entries[i];
      SettledEntries(name, entries[..n], a, b);
    }
  }

  /** A layer either settles a name or appends the same text to whatever value it has. */
  lemma LayerSettlesOrAppends(name: string, layer: Layer, a: Option<string>, b: Option<string>)
    ensures Settles(name, layer) ==> Effect(name, layer, a) == Effect(name, layer, b)
    ensures !Settles(name, layer) && a.Some? ==> Effect(name, layer, a) == Some(a.value + LayerAppends(name, layer))
  {
    if layer.Plain? {
      if EntriesSettle(name, layer.entries) {
        SettledEntries(name, layer.entries, a, b);
      } else if a.Some? {
        EntriesAppendMeans(name, layer.entries, a.value);
      }
    } else if a.Some? {
      assert a.value + "" == a.value;
    }
  }

  function Trimmed(g: Option<string>): Option<string> {
    if g.Some? then Some(Trim(g.value)) else None
  }

  lemma TrimShortens(s: string)
    ensures |Trim(s)| <= |s| && (|Trim(s)| == |s| ==> Trim(s) == s)
  {
    TrimLeftSuffix(s);
    TrimRightPrefix(TrimLeft(s));
  }

  /** The lookup after one more `setConfig`: the client's own headers are copied first. */
  lemma ChainNext(defaults: Layer, layers: seq<Layer>, name: string)
    requires |layers| >= 2 && name != SET_COOKIE
    ensures Get(Chain(defaults, layers), name) ==
            Effect(name, layers[|layers| - 1], Trimmed(Get(Chain(defaults, layers[..|layers| - 1]), name)))
  {
    MergeOfTwo(Built(Chain(defaults, layers[..|layers| - 1])), layers[|layers| - 1], name);
  }

  function Flat(defaults: Layer, layers: seq<Layer>, name: string): Option<string> {
    Get(Merge([defaults] + layers), name)
  }

  lemma FlatNext(defaults: Layer, layers: seq<Layer>, name: string)
    requires layers != []
    ensures Flat(defaults, layers, name) ==
            Effect(name, layers[|layers| - 1], Flat(defaults, layers[..|layers| - 1], name))
  {
    FlatMeans([defaults] + layers, name);
    FlatMeans([defaults] + layers[..|layers| - 1], name);
    FlatSnoc(defaults, layers, name);
  }

  lemma ShortChain(defaults: Layer, layers: seq<Layer>, name: string)
    requires |layers| <= 1
    ensures Get(Chain(defaults, layers), name) == Flat(defaults, layers, name)
  {
    if layers == [] {
      assert [defaults] + layers == [defaults];
    } else {
      assert [defaults] + layers == [defaults, layers[0]];
    }
  }

  /** Since the layer that last settled the name, no value that a later merge had to copy
      began or ended with white space. */
  predicate Intact(defaults: Layer, layers: seq<Layer>, name: string) {
    if |layers| <= 1 then true
    else
      var init := layers[..|layers| - 1];
      Settles(name, layers[|layers| - 1]) || (Steady(Flat(defaults, init, name)) && Intact(defaults, init, name))
  }

  /** `l` is what is left of `g`: the same, or shorter. */
  predicate Remains(l: Option<string>, g: Option<string>) {
    && (l.Some? <==> g.Some?)
    && (l.Some? ==> |l.value| <= |g.value| && (|l.value| == |g.value| ==> l == g))
  }

  lemma AppendAfterCopy(l: Option<string>, g: Option<string>, l': Option<string>, g': Option<string>, text: string)
    requires Remains(l, g) && l.Some?
    requires l' == Some(Trim(l.value) + text) && g' == Some(g.value + text)
    ensures Remains(l', g') && (l' == g' <==> l == g && Steady(g))
  {
    TrimShortens(l.value);
    TrimExactly(g.value);
    if l' == g' {
      assert |Trim(l.value)| == |g.value|;
    }
  }

  /** Layered merging is flat merging exactly when every copied value was intact: for every
      chain of configurations and every name but Set-Cookie. */
  lemma {:induction false} LayeredIsFlatExactly(defaults: Layer, layers: seq<Layer>, name: string)
    requires name != SET_COOKIE
    ensures Get(Chain(defaults, layers), name) == Flat(defaults, layers, name) <==> Intact(defaults, layers, name)
    ensures Remains(Get(Chain(defaults, layers), name), Flat(defaults, layers, name))
  {
    if |layers| <= 1 {
      ShortChain(defaults, layers, name);
    } else {
      var n := |layers| - 1;
      var (init, last) := (layers[..n], layers[n]);
      LayeredIsFlatExactly(defaults, init, name);
      ChainNext(defaults, layers, name);
      FlatNext(defaults, layers, name);
      var (l, g) := (Get(Chain(defaults, init), name), Flat(defaults, init, name));
      LayerSettlesOrAppends(name, last, Trimmed(l), g);
      LayerSettlesOrAppends(name, last, g, g);
      if !Settles(name, last) && l.Some? {
        AppendAfterCopy(l, g, Get(Chain(defaults, layers), name), Flat(defaults, layers, name),
                        LayerAppends(name, last));
      }
    }
  }
}
