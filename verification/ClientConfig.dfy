/** The client's configuration: headers and base URL, merged layer by layer. */
module ClientConfig {
  import opened HeaderText
  import opened Headers
  import opened HeaderChains
  import opened Wrappers

  // ----- base URLs -----

  /** A property that a config object lacks, or has, possibly as undefined. */
  datatype Property = Lacking | Having(value: Option<string>)

  function StripSlash(url: string): string {
    if url != "" && url[|url| - 1] == '/' then url[..|url| - 1] else url
  }

  /** The base URL after `mergeConfigs`. */
  function MergeBaseUrl(a: Option<string>, b: Property): Option<string> {
    var url := if b.Lacking? then a else b.value;
    if url.Some? then Some(StripSlash(url.value)) else None
  }

  predicate EndsInTwoSlashes(url: string) {
    |url| >= 2 && url[|url| - 1] == '/' && url[|url| - 2] == '/'
  }

  /** The base URL after it was set and then merged `k` times with layers that lack it. */
  function BaseAfter(before: Option<string>, url: string, k: nat): Option<string> {
    if k == 0 then MergeBaseUrl(before, Having(Some(url))) else MergeBaseUrl(BaseAfter(before, url, k - 1), Lacking)
  }

  lemma {:induction false} BaseShrinks(before: Option<string>, url: string, k: nat)
    requires EndsInTwoSlashes(url) && k > 0
    ensures BaseAfter(before, url, k).Some? && |BaseAfter(before, url, k).value| < |StripSlash(url)|
  {
    if k == 1 {
      assert BaseAfter(before, url, 0) == Some(StripSlash(url));
    } else {
      BaseShrinks(before, url, k - 1);
    }
  }

  /** A base URL is stable under later merges that do not set it exactly when it does
      not end in two slashes: otherwise every merge removes one more. */
  lemma {:induction false} BaseUrlStable(before: Option<string>, url: string, k: nat)
    requires k > 0
    ensures BaseAfter(before, url, k) == BaseAfter(before, url, 0) <==> !EndsInTwoSlashes(url)
  {
    assert BaseAfter(before, url, 0) == Some(StripSlash(url));
    if EndsInTwoSlashes(url) {
      BaseShrinks(before, url, k);
    } else if k > 1 {
      BaseUrlStable(before, url, k - 1);
    }
  }

  // ----- the client -----

  const DEFAULTS := Plain([("Content-Type", One("application/json"))])

  /** The layer says nothing about the header. */
  ghost predicate LeavesAlone(layer: Layer, header: string) {
    match layer
    case Missing => true
    case Plain(entries) => forall i :: 0 <= i < |entries| ==> !SameHeader(entries[i].0, header)
    case Built(headers) => Lower(header) !in headers
  }

  lemma {:induction false} AloneIsKept(entries: seq<(string, HeaderValue)>, header: string, before: Option<string>)
    requires LeavesAlone(Plain(entries), header)
    ensures EntriesEffect(Lower(header), entries, before) == before
  {
    if entries != [] {
      var n := |entries| - 1;
      assert LeavesAlone(Plain(entries[..n]), header) by {
        assert forall i :: 0 <= i < n ==> entries[..n][i] == entries[i];
      }
      AloneIsKept(entries[..n], header, before);
      assert !SameHeader(entries[n].0, header);
      LowerExactly(entries[n].0, header);
    }
  }

  lemma NoBlanksAlone(layer: Layer, header: string)
    requires LeavesAlone(layer, header)
    ensures NoBlanks(layer, Lower(header))
  {
    if layer.Plain? {
      forall i | 0 <= i < |layer.entries| ensures Lower(layer.entries[i].0) != Lower(header) {
        assert !SameHeader(layer.entries[i].0, header);
        LowerExactly(layer.entries[i].0, header);
      }
    }
  }

  lemma {:induction false} DefaultFlat(layers: seq<Layer>)
    requires forall i :: 0 <= i < |layers| ==> LeavesAlone(layers[i], "Content-Type")
    ensures FlatEffect(Lower("Content-Type"), [DEFAULTS] + layers) == Some("application/json")
  {
    var all := [DEFAULTS] + layers;
    if layers == [] {
      assert all == [DEFAULTS] && all[..0] == [];
      var entries := DEFAULTS.entries;
      assert entries[..0] == [];
      assert IsTrimmed("application/json");
      TrimExactly("application/json");
      assert EntriesEffect(Lower("Content-Type"), entries, None) == Some(Trim("application/json"));
      assert FlatEffect(Lower("Content-Type"), all) ==
             Effect(Lower("Content-Type"), DEFAULTS, FlatEffect(Lower("Content-Type"), []));
    } else {
      var n := |layers| - 1;
      FlatSnoc(DEFAULTS, layers, Lower("Content-Type"));
      DefaultFlat(layers[..n]);
      assert LeavesAlone(layers[n], "Content-Type");
      if layers[n].Plain? { AloneIsKept(layers[n].entries, "Content-Type", Some("application/json")); }
    }
  }

  /** As long as no layer says otherwise, bodies are sent as JSON. */
  lemma JsonByDefault(layers: seq<Layer>)
    requires forall i :: 0 <= i < |layers| ==> LeavesAlone(layers[i], "Content-Type")
    ensures Get(Chain(DEFAULTS, layers), Lower("Content-Type")) == Some("application/json")
  {
    var name := Lower("Content-Type");
    assert name[0] == 'c' && SET_COOKIE[0] == 's';
    var entries := DEFAULTS.entries;
    assert NoBlanks(DEFAULTS, name) by { assert |entries| == 1 && entries[0].1.One?; }
    forall i | 0 <= i < |layers| ensures NoBlanks(layers[i], name) { NoBlanksAlone(layers[i], "Content-Type"); }
    LayeredIsFlat(DEFAULTS, layers, name);
    FlatMeans([DEFAULTS] + layers, name);
    DefaultFlat(layers);
  }

  /** `createClient`: the configuration is a closure variable that `setConfig` reassigns. */
  class Client {
    var headers: Store
    var baseUrl: Option<string>
    ghost var layers: seq<Layer>

    ghost predicate Valid()
      reads this
    {
      layers != [] && headers == Chain(DEFAULTS, layers)
    }

    constructor (config: Layer, url: Property)
      ensures Valid() && layers == [config] && baseUrl == MergeBaseUrl(None, url)
    {
      layers := [config];
      baseUrl := MergeBaseUrl(None, url);
      new;
      headers := MergeHeaders([DEFAULTS, config]);
    }

    method SetConfig(config: Layer, url: Property)
      requires Valid()
      modifies this
      ensures Valid() && layers == old(layers) + [config] && baseUrl == MergeBaseUrl(old(baseUrl), url)
    {
      headers := MergeHeaders([Built(headers), config]);
      baseUrl := MergeBaseUrl(baseUrl, url);
      layers := layers + [config];
      assert layers[..|layers| - 1] == old(layers);
    }

    /** The headers of one request; without a body there is no Content-Type. Every other name
        but Set-Cookie has the value of the flat merge exactly when it was intact. */
    method BeforeRequest(options: Layer, hasBody: bool) returns (merged: Store)
      requires Valid()
      ensures !hasBody ==> Get(merged, Lower("Content-Type")) == None
      ensures hasBody && (forall i :: 0 <= i <= |layers| ==> LeavesAlone((layers + [options])[i], "Content-Type")) ==>
                Get(merged, Lower("Content-Type")) == Some("application/json")
      ensures forall name | hasBody || name != Lower("Content-Type") ::
                Get(merged, name) == Get(Chain(DEFAULTS, layers + [options]), name)
      ensures forall name | name != SET_COOKIE && (hasBody || name != Lower("Content-Type")) ::
                Get(merged, name) == Flat(DEFAULTS, layers + [options], name) <==>
                Intact(DEFAULTS, layers + [options], name)
    {
      merged := MergeHeaders([Built(headers), options]);
      ghost var all := layers + [options];
      assert all[..|all| - 1] == layers;
      assert merged == Chain(DEFAULTS, all);
      forall name | name != SET_COOKIE
        ensures Get(merged, name) == Flat(DEFAULTS, all, name) <==> Intact(DEFAULTS, all, name)
      {
        LayeredIsFlatExactly(DEFAULTS, all, name);
      }
      if forall i :: 0 <= i < |all| ==> LeavesAlone(all[i], "Content-Type") { JsonByDefault(all); }
      if !hasBody {
        merged := merged - {Lower("Content-Type")};
      }
    }
  }
}
