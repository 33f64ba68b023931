/** The interceptor registry: an array with holes, against a list of live
    interceptors under ids that keep their place. */
module Interceptors {
  import opened Wrappers

  // ----- the specification -----

  /** The live interceptors in registration order, and the id the next one gets. */
  datatype Registry<F> = Registry(live: seq<(nat, F)>, next: nat)

  /** An interceptor is named by its id or by itself. */
  datatype Key<F> = ById(id: int) | ByFn(fn: F)

  datatype Op<F> = Used(fn: F) | Ejected(key: Key<F>) | Updated(key: Key<F>, fn: F) | Cleared

  /** The entry a key names: the live one under the id, or the first equal interceptor. */
  function Resolve<F(==)>(live: seq<(nat, F)>, key: Key<F>): Option<nat> {
    if live == [] then None
    else
      var before := Resolve(live[..|live| - 1], key);
      var (id, fn) := live[|live| - 1];
      if before.Some? then before
      else if (key.ById? && key.id == id) || (key.ByFn? && key.fn == fn) then Some(id)
      else None
  }

  function Without<F>(live: seq<(nat, F)>, id: nat): seq<(nat, F)> {
    if live == [] then []
    else Without(live[..|live| - 1], id) + (if live[|live| - 1].0 == id then [] else [live[|live| - 1]])
  }

  function With<F>(live: seq<(nat, F)>, id: nat, fn: F): seq<(nat, F)> {
    if live == [] then []
    else
      var (last, was) := live[|live| - 1];
      With(live[..|live| - 1], id, fn) + [(last, if last == id then fn else was)]
  }

  function Step<F(==)>(r: Registry<F>, op: Op<F>): Registry<F> {
    match op
    case Used(fn) => Registry(r.live + [(r.next, fn)], r.next + 1)
    case Cleared => Registry([], 0)
    case Ejected(key) =>
      var id := Resolve(r.live, key);
      if id.None? then r else r.(live := Without(r.live, id.value))
    case Updated(key, fn) =>
      var id := Resolve(r.live, key);
      if id.None? then r else r.(live := With(r.live, id.value, fn))
  }

  function Run<F(==)>(start: Registry<F>, ops: seq<Op<F>>): Registry<F> {
    if ops == [] then start else Step(Run(start, ops[..|ops| - 1]), ops[|ops| - 1])
  }

  /** Ids increase along the list, below the next id. */
  predicate Ordered<F>(r: Registry<F>) {
    && (forall i :: 0 <= i < |r.live| ==> r.live[i].0 < r.next)
    && (forall i, j :: 0 <= i < j < |r.live| ==> r.live[i].0 < r.live[j].0)
  }

  predicate IsLive<F>(r: Registry<F>, id: nat) {
    exists i :: 0 <= i < |r.live| && r.live[i].0 == id
  }

  // ----- the class -----

  function LiveOf<F>(fns: seq<Option<F>>): seq<(nat, F)> {
    if fns == [] then []
    else LiveOf(fns[..|fns| - 1]) + Entry(|fns| - 1, fns[|fns| - 1])
  }

  /** The pipeline of a request, response or error: every live interceptor in turn. */
  function Applied<F, R>(apply: (F, R) -> R, live: seq<(nat, F)>, value: R): R {
    if live == [] then value else apply(live[|live| - 1].1, Applied(apply, live[..|live| - 1], value))
  }

  lemma {:induction false} LiveIsOrdered<F>(fns: seq<Option<F>>)
    ensures Ordered(Registry(LiveOf(fns), |fns|))
  {
    if fns != [] { LiveIsOrdered(fns[..|fns| - 1]); }
  }

  lemma {:induction false} LiveUpdate<F>(fns: seq<Option<F>>, i: nat, fn: Option<F>)
    requires i < |fns| && fns[i].Some?
    ensures LiveOf(fns[i := fn]) == Rewritten(LiveOf(fns), i, fn)
  {
    var n := |fns| - 1;
    var after := fns[i := fn];
    if i == n {
      assert after[..n] == fns[..n];
      NotYetListed(fns[..n], fn);
    } else {
      assert after[..n] == fns[..n][i := fn];
      LiveUpdate(fns[..n], i, fn);
    }
    UpdateLast(LiveOf(fns[..n]), n, fns[n], i, fn);
  }

  lemma NotYetListed<F>(fns: seq<Option<F>>, fn: Option<F>)
    ensures Rewritten(LiveOf(fns), |fns|, fn) == LiveOf(fns)
  {
    LiveIsOrdered(fns);
    NotListed(LiveOf(fns), |fns|, fn);
  }

  /** The list after one more array element, hole or not. */
  lemma LiveNext<F>(fns: seq<Option<F>>, i: nat)
    requires i < |fns|
    ensures LiveOf(fns[..i + 1]) == LiveOf(fns[..i]) + Entry(i, fns[i])
  {
    assert fns[..i + 1][..i] == fns[..i];
  }

  function Entry<F>(i: nat, fn: Option<F>): seq<(nat, F)> {
    if fn.Some? then [(i, fn.value)] else []
  }

  lemma UpdateLast<F>(init: seq<(nat, F)>, n: nat, last: Option<F>, i: nat, fn: Option<F>)
    ensures Rewritten(init + Entry(n, last), i, fn) ==
            Rewritten(init, i, fn) + (if last.None? then [] else if n == i then Entry(n, fn) else Entry(n, last))
  {
    if last.Some? {
      assert (init + [(n, last.value)])[..|init|] == init;
    } else {
      assert init + Entry(n, last) == init;
    }
  }

  function Rewritten<F>(live: seq<(nat, F)>, i: nat, fn: Option<F>): seq<(nat, F)> {
    if fn.Some? then With(live, i, fn.value) else Without(live, i)
  }

  lemma {:induction false} NotListed<F>(live: seq<(nat, F)>, id: nat, fn: Option<F>)
    requires forall i :: 0 <= i < |live| ==> live[i].0 != id
    ensures Rewritten(live, id, fn) == live
  {
    if live != [] { NotListed(live[..|live| - 1], id, fn); }
  }

  /** `fns.indexOf(fn)` */
  function IndexOf<F(==)>(fns: seq<Option<F>>, fn: F): (i: int)
    ensures -1 <= i < |fns| && (i >= 0 ==> fns[i] == Some(fn))
  {
    if fns == [] then -1
    else
      var before := IndexOf(fns[..|fns| - 1], fn);
      if before >= 0 then before else if fns[|fns| - 1] == Some(fn) then |fns| - 1 else -1
  }

  /** `getInterceptorIndex` */
  function InterceptorIndex<F(==)>(fns: seq<Option<F>>, key: Key<F>): (i: int)
    ensures -1 <= i < |fns| && (i >= 0 ==> fns[i].Some?)
  {
    match key
    case ById(id) => if 0 <= id < |fns| && fns[id].Some? then id else -1
    case ByFn(fn) => IndexOf(fns, fn)
  }

  predicate Names<F(==)>(key: Key<F>, id: nat, fn: Option<F>) {
    fn.Some? && ((key.ById? && key.id == id) || (key.ByFn? && key.fn == fn.value))
  }

  lemma ResolveNext<F>(live: seq<(nat, F)>, n: nat, fn: Option<F>, key: Key<F>)
    ensures Resolve(live + Entry(n, fn), key) ==
            if Resolve(live, key).Some? then Resolve(live, key) else if Names(key, n, fn) then Some(n) else None
  {
    if fn.Some? {
      assert (live + [(n, fn.value)])[..|live|] == live;
    } else {
      assert live + Entry(n, fn) == live;
    }
  }

  lemma IndexNext<F>(fns: seq<Option<F>>, key: Key<F>)
    requires fns != []
    ensures var n := |fns| - 1;
            var before := InterceptorIndex(fns[..n], key);
            InterceptorIndex(fns, key) == if before >= 0 then before else if Names(key, n, fns[n]) then n else -1
  {
  }

  lemma {:induction false} IndexResolves<F>(fns: seq<Option<F>>, key: Key<F>)
    ensures Resolve(LiveOf(fns), key) ==
            if InterceptorIndex(fns, key) < 0 then None else Some(InterceptorIndex(fns, key))
  {
    if fns != [] {
      var n := |fns| - 1;
      IndexResolves(fns[..n], key);
      LiveNext(fns, n);
      assert fns[..n + 1] == fns;
      ResolveNext(LiveOf(fns[..n]), n, fns[n], key);
      IndexNext(fns, key);
    }
  }

  /** Whether a caller that tests the result of an update takes it for a success: the id 0 of
      the first interceptor is falsy. */
  predicate IsTruthy<F(==)>(updated: Option<Key<F>>) {
    updated.Some? && updated.value != ById(0)
  }

  class Interceptors<F(==)> {
    var fns: seq<Option<F>>

    constructor ()
      ensures View() == Registry([], 0)
    {
      fns := [];
    }

    ghost function View(): Registry<F>
      reads this
    {
      Registry(LiveOf(fns), |fns|)
    }

    method Clear()
      modifies this
      ensures View() == Step(old(View()), Cleared)
    {
      fns := [];
    }

    method Eject(key: Key<F>)
      modifies this
      ensures View() == Step(old(View()), Ejected(key))
    {
      IndexResolves(fns, key);
      var index := InterceptorIndex(fns, key);
      if index >= 0 {
        LiveUpdate(fns, index, None);
        fns := fns[index := None];
      }
    }

    method Exists(key: Key<F>) returns (found: bool)
      ensures found <==> Resolve(View().live, key).Some?
    {
      IndexResolves(fns, key);
      var index := InterceptorIndex(fns, key);
      found := index >= 0;
    }

    /** Returns the key it was given, or false, modelled as None. */
    method Update(key: Key<F>, fn: F) returns (updated: Option<Key<F>>)
      modifies this
      ensures View() == Step(old(View()), Updated(key, fn))
      ensures updated == if Resolve(old(View()).live, key).Some? then Some(key) else None
      ensures IsTruthy(updated) <==> Resolve(old(View()).live, key).Some? && key != ById(0)
    {
      IndexResolves(fns, key);
      var index := InterceptorIndex(fns, key);
      if index >= 0 {
        LiveUpdate(fns, index, Some(fn));
        fns := fns[index := Some(fn)];
        return Some(key);
      }
      return None;
    }

    method Use(fn: F) returns (id: nat)
      modifies this
      ensures View() == Step(old(View()), Used(fn)) && id == old(View()).next
    {
      assert (fns + [Some(fn)])[..|fns|] == fns;
      fns := fns + [Some(fn)];
      id := |fns| - 1;
    }

    /** The loop over `fns` in `request`: holes are passed over. */
    method Pipeline<R>(apply: (F, R) -> R, value: R) returns (result: R)
      ensures result == Applied(apply, View().live, value)
    {
      result := value;
      for i := 0 to |fns|
        invariant result == Applied(apply, LiveOf(fns[..i]), value)
      {
        ghost var init := LiveOf(fns[..i]);
        LiveNext(fns, i);
        if fns[i].Some? {
          assert (init + [(i, fns[i].value)])[..|init|] == init;
          result := apply(fns[i].value, result);
        } else {
          assert init + Entry(i, fns[i]) == init;
        }
      }
      assert fns[..|fns|] == fns;
    }
  }

  // ----- runs -----

  lemma {:induction false} WithoutMeans<F>(live: seq<(nat, F)>, id: nat, next: nat)
    requires Ordered(Registry(live, next))
    ensures Ordered(Registry(Without(live, id), next))
    ensures forall x: nat ::
              IsLive(Registry(Without(live, id), next), x) <==> x != id && IsLive(Registry(live, next), x)
  {
    if live != [] {
      var n := |live| - 1;
      WithoutMeans(live[..n], id, live[n].0);
      var (init, rest) := (live[..n], Without(live[..n], id));
      forall x: nat
        ensures IsLive(Registry(Without(live, id), next), x) <==> x != id && IsLive(Registry(live, next), x)
      {
        LiveSnoc(init, live[n], x, next);
        assert live == init + [live[n]];
        if live[n].0 != id { LiveSnoc(rest, live[n], x, next); } else { assert rest + [] == rest; }
        assert IsLive(Registry(rest, next), x) <==> IsLive(Registry(rest, live[n].0), x);
        assert IsLive(Registry(init, next), x) <==> IsLive(Registry(init, live[n].0), x);
        if x == id && live[n].0 == id { assert !IsLive(Registry(rest, live[n].0), x); }
      }
    }
  }

  lemma LiveSnoc<F>(live: seq<(nat, F)>, last: (nat, F), x: nat, next: nat)
    ensures IsLive(Registry(live + [last], next), x) <==> IsLive(Registry(live, next), x) || last.0 == x
  {
    var all := live + [last];
    if IsLive(Registry(live, next), x) {
      var i :| 0 <= i < |live| && live[i].0 == x;
      assert all[i].0 == x;
    }
    assert all[|live|].0 == last.0;
  }

  lemma {:induction false} WithMeans<F>(live: seq<(nat, F)>, id: nat, fn: F)
    ensures |With(live, id, fn)| == |live|
    ensures forall i :: 0 <= i < |live| ==>
              With(live, id, fn)[i] == (live[i].0, if live[i].0 == id then fn else live[i].1)
  {
    if live != [] { WithMeans(live[..|live| - 1], id, fn); }
  }

  /** One operation keeps the order of ids, and short of a clear it brings no old id to life. */
  lemma StepKeeps<F>(r: Registry<F>, op: Op<F>)
    requires Ordered(r)
    ensures Ordered(Step(r, op))
    ensures op != Cleared ==> r.next <= Step(r, op).next
    ensures op != Cleared ==> forall x: nat :: x < r.next && IsLive(Step(r, op), x) ==> IsLive(r, x)
  {
    match op
    case Cleared =>
    case Used(fn) =>
      forall x: nat | x < r.next && IsLive(Step(r, op), x) ensures IsLive(r, x) {
        LiveSnoc(r.live, (r.next, fn), x, r.next + 1);
        assert IsLive(Registry(r.live, r.next + 1), x);
      }
    case Ejected(key) =>
      var id := Resolve(r.live, key);
      if id.Some? { WithoutMeans(r.live, id.value, r.next); }
    case Updated(key, fn) =>
      var id := Resolve(r.live, key);
      if id.Some? {
        WithMeans(r.live, id.value, fn);
        forall x: nat | IsLive(Step(r, op), x) ensures IsLive(r, x) {
          var i :| 0 <= i < |r.live| && With(r.live, id.value, fn)[i].0 == x;
          assert r.live[i].0 == x;
        }
      }
  }

  /** Over every run the pipeline is in registration order under pairwise different ids. */
  lemma {:induction false} RunIsOrdered<F>(ops: seq<Op<F>>)
    ensures Ordered(Run(Registry([], 0), ops))
  {
    if ops != [] {
      RunIsOrdered(ops[..|ops| - 1]);
      StepKeeps(Run(Registry([], 0), ops[..|ops| - 1]), ops[|ops| - 1]);
    }
  }

  /** Once gone, an id stays gone until the next clear. */
  lemma {:induction false} GoneStaysGone<F>(r: Registry<F>, ops: seq<Op<F>>, id: nat)
    requires Ordered(r) && id < r.next && !IsLive(r, id)
    requires forall i :: 0 <= i < |ops| ==> ops[i] != Cleared
    ensures Ordered(Run(r, ops)) && r.next <= Run(r, ops).next && !IsLive(Run(r, ops), id)
  {
    if ops != [] {
      GoneStaysGone(r, ops[..|ops| - 1], id);
      StepKeeps(Run(r, ops[..|ops| - 1]), ops[|ops| - 1]);
    }
  }

  /** Between two clears every registration gets an id of its own. */
  lemma {:induction false} IdsAreDistinct<F>(r: Registry<F>, ops: seq<Op<F>>, i: nat, j: nat)
    requires i < j <= |ops| && ops[i].Used?
    requires forall k :: 0 <= k < |ops| ==> ops[k] != Cleared
    ensures Run(r, ops[..i]).next < Run(r, ops[..j]).next
  {
    assert ops[..j][..j - 1] == ops[..j - 1];
    if i < j - 1 { IdsAreDistinct(r, ops, i, j - 1); }
  }

  lemma {:induction false} ResolvedIsLive<F>(live: seq<(nat, F)>, key: Key<F>, next: nat)
    requires Resolve(live, key).Some?
    ensures IsLive(Registry(live, next), Resolve(live, key).value)
  {
    var n := |live| - 1;
    if Resolve(live[..n], key).Some? {
      ResolvedIsLive(live[..n], key, next);
      var i :| 0 <= i < n && live[..n][i].0 == Resolve(live, key).value;
      assert live[i].0 == Resolve(live, key).value;
    } else {
      assert live[n].0 == Resolve(live, key).value;
    }
  }

  /** Ejecting takes out exactly the entry the key names, for good until the next clear. */
  lemma EjectIsFinal<F>(r: Registry<F>, key: Key<F>, ops: seq<Op<F>>)
    requires Ordered(r) && Resolve(r.live, key).Some?
    requires forall i :: 0 <= i < |ops| ==> ops[i] != Cleared
    ensures !IsLive(Run(Step(r, Ejected(key)), ops), Resolve(r.live, key).value)
  {
    var id := Resolve(r.live, key).value;
    ResolvedIsLive(r.live, key, r.next);
    WithoutMeans(r.live, id, r.next);
    GoneStaysGone(Step(r, Ejected(key)), ops, id);
  }

  // ----- what a key names, and in which order interceptors apply -----

  predicate IsNamed<F(==)>(entry: (nat, F), key: Key<F>) {
    match key
    case ById(id) => entry.0 == id
    case ByFn(fn) => entry.1 == fn
  }

  /** A key names the first entry that has the id, or is the interceptor. */
  lemma {:induction false} ResolveExactly<F>(live: seq<(nat, F)>, key: Key<F>)
    ensures Resolve(live, key).None? <==> forall i :: 0 <= i < |live| ==> !IsNamed(live[i], key)
    ensures Resolve(live, key).Some? ==>
              exists i :: 0 <= i < |live| && IsNamed(live[i], key) && live[i].0 == Resolve(live, key).value &&
                forall j :: 0 <= j < i ==> !IsNamed(live[j], key)
  {
    if live != [] {
      var n := |live| - 1;
      ResolveExactly(live[..n], key);
      if Resolve(live[..n], key).Some? {
        var i :| 0 <= i < n && IsNamed(live[..n][i], key) && live[..n][i].0 == Resolve(live, key).value &&
          forall j :: 0 <= j < i ==> !IsNamed(live[..n][j], key);
        assert IsNamed(live[i], key) && forall j :: 0 <= j < i ==> live[..n][j] == live[j];
      } else {
        assert forall j :: 0 <= j < n ==> live[..n][j] == live[j];
      }
    }
  }

  /** An update exchanges the interceptor of the entry that the key names, in its place, and
      leaves all other entries alone. */
  lemma UpdateMeans<F>(r: Registry<F>, key: Key<F>, fn: F)
    ensures var after := Step(r, Updated(key, fn));
            && after.next == r.next && |after.live| == |r.live|
            && forall i :: 0 <= i < |r.live| ==>
                 after.live[i] == (r.live[i].0, if Resolve(r.live, key) == Some(r.live[i].0) then fn else r.live[i].1)
  {
    var id := Resolve(r.live, key);
    if id.Some? { WithMeans(r.live, id.value, fn); }
  }

  /** A value goes through the interceptors from the first to the last. */
  lemma {:induction false} AppliedInOrder<F, R>(apply: (F, R) -> R, a: seq<(nat, F)>, b: seq<(nat, F)>, value: R)
    ensures Applied(apply, a + b, value) == Applied(apply, b, Applied(apply, a, value))
  {
    if b == [] {
      assert a + b == a;
    } else {
      AppliedInOrder(apply, a, b[..|b| - 1], value);
      assert (a + b)[..|a + b| - 1] == a + b[..|b| - 1];
    }
  }

  lemma AppliedOnce<F, R>(apply: (F, R) -> R, id: nat, fn: F, value: R)
    ensures Applied(apply, [], value) == value
    ensures Applied(apply, [(id, fn)], value) == apply(fn, value)
  {
    var one := [(id, fn)];
    assert one[..0] == [];
  }

  /** So what the pipeline does is a log of the live interceptors in their order. */
  lemma {:induction false} PipelineLog<F>(live: seq<(nat, F)>)
    ensures var log := Applied((fn: F, log: seq<F>) => log + [fn], live, []);
            |log| == |live| && forall i :: 0 <= i < |live| ==> log[i] == live[i].1
  {
    if live != [] { PipelineLog(live[..|live| - 1]); }
  }

  // ----- ids kept across a clear -----

  function Registrations<F>(ops: seq<Op<F>>): nat {
    if ops == [] then 0 else Registrations(ops[..|ops| - 1]) + if ops[|ops| - 1].Used? then 1 else 0
  }

  /** Some operation ejects the entry under `id`. */
  predicate TakenOut<F(==)>(r: Registry<F>, ops: seq<Op<F>>, id: nat) {
    exists i :: 0 <= i < |ops| && EjectsAt(r, ops, i, id)
  }

  predicate EjectsAt<F(==)>(r: Registry<F>, ops: seq<Op<F>>, i: nat, id: nat)
    requires i < |ops|
  {
    ops[i].Ejected? && Resolve(Run(r, ops[..i]).live, ops[i].key) == Some(id)
  }

  lemma TakenOutNext<F>(r: Registry<F>, ops: seq<Op<F>>, id: nat)
    requires ops != []
    ensures TakenOut(r, ops, id) <==> TakenOut(r, ops[..|ops| - 1], id) || EjectsAt(r, ops, |ops| - 1, id)
  {
    var n := |ops| - 1;
    assert forall i :: 0 <= i <= n ==> ops[..n][..i] == ops[..i];
    if TakenOut(r, ops[..n], id) {
      var i :| 0 <= i < n && EjectsAt(r, ops[..n], i, id);
      assert EjectsAt(r, ops, i, id);
    }
    if TakenOut(r, ops, id) {
      var i :| 0 <= i < |ops| && EjectsAt(r, ops, i, id);
      if i < n { assert EjectsAt(r, ops[..n], i, id); }
    }
  }

  /** Which ids one operation leaves alive. */
  lemma LiveAfterStep<F>(r: Registry<F>, op: Op<F>, id: nat)
    requires Ordered(r) && op != Cleared
    ensures IsLive(Step(r, op), id) <==>
            (IsLive(r, id) || (op.Used? && id == r.next)) && !(op.Ejected? && Resolve(r.live, op.key) == Some(id))
  {
    match op
    case Used(fn) =>
      LiveSnoc(r.live, (r.next, fn), id, r.next + 1);
      assert IsLive(r, id) <==> IsLive(Registry(r.live, r.next + 1), id);
    case Ejected(key) =>
      var named := Resolve(r.live, key);
      if named.Some? { WithoutMeans(r.live, named.value, r.next); }
    case Updated(key, fn) =>
      var named := Resolve(r.live, key);
      if named.Some? {
        WithMeans(r.live, named.value, fn);
        assert forall i :: 0 <= i < |r.live| ==> With(r.live, named.value, fn)[i].0 == r.live[i].0;
      }
  }

  /** After a clear the ids are those of the registrations since then, but for what has been
      ejected since then. */
  lemma {:induction false} LiveExactly<F>(ops: seq<Op<F>>, id: nat)
    requires forall i :: 0 <= i < |ops| ==> ops[i] != Cleared
    ensures var r := Run(Registry([], 0), ops);
            && r.next == Registrations(ops)
            && (IsLive(r, id) <==> id < Registrations(ops) && !TakenOut(Registry([], 0), ops, id))
  {
    if ops != [] {
      var start: Registry<F> := Registry([], 0);
      var (init, op) := (ops[..|ops| - 1], ops[|ops| - 1]);
      LiveExactly(init, id);
      RunIsOrdered(init);
      LiveAfterStep(Run(start, init), op, id);
      TakenOutNext(start, ops, id);
      if op.Used? && id >= Run(start, init).next { NeverTakenOut(init, id); }
    }
  }

  /** Nothing is ejected under an id that has not been given out. */
  lemma {:induction false} NeverTakenOut<F>(ops: seq<Op<F>>, id: nat)
    requires forall i :: 0 <= i < |ops| ==> ops[i] != Cleared
    requires Registrations(ops) <= id
    ensures Run(Registry([], 0), ops).next == Registrations(ops)
    ensures !TakenOut(Registry([], 0), ops, id)
  {
    if ops != [] {
      var start: Registry<F> := Registry([], 0);
      var (init, op) := (ops[..|ops| - 1], ops[|ops| - 1]);
      NeverTakenOut(init, id);
      RunIsOrdered(init);
      TakenOutNext(start, ops, id);
      var r := Run(start, init);
      if op.Ejected? && Resolve(r.live, op.key).Some? { ResolvedIsLive(r.live, op.key, r.next); }
    }
  }

  lemma {:induction false} ClearForgets<F>(start: Registry<F>, before: seq<Op<F>>, after: seq<Op<F>>)
    ensures Run(start, before + [Cleared] + after) == Run(Registry([], 0), after)
  {
    var ops := before + [Cleared] + after;
    if after == [] {
      assert ops[..|ops| - 1] == before && ops[|ops| - 1] == Cleared;
    } else {
      assert ops[..|ops| - 1] == before + [Cleared] + after[..|after| - 1];
      ClearForgets(start, before, after[..|after| - 1]);
    }
  }

  /** The operation puts `fn` into the registry. */
  predicate Brings<F(==)>(op: Op<F>, fn: F) {
    (op.Used? || op.Updated?) && op.fn == fn
  }

  predicate Brought<F(==)>(ops: seq<Op<F>>, fn: F) {
    exists i :: 0 <= i < |ops| && Brings(ops[i], fn)
  }

  lemma {:induction false} WithoutIsPart<F>(live: seq<(nat, F)>, id: nat)
    ensures forall e :: e in Without(live, id) ==> e in live
  {
    if live != [] { WithoutIsPart(live[..|live| - 1], id); }
  }

  lemma StepBrings<F>(r: Registry<F>, op: Op<F>, e: (nat, F))
    requires e in Step(r, op).live
    ensures e in r.live || Brings(op, e.1)
  {
    match op
    case Cleared =>
    case Used(fn) =>
    case Ejected(key) =>
      var named := Resolve(r.live, key);
      if named.Some? { WithoutIsPart(r.live, named.value); }
    case Updated(key, fn) =>
      var named := Resolve(r.live, key);
      if named.Some? { WithMeans(r.live, named.value, fn); }
  }

  /** Every live interceptor was brought in by one of the operations. */
  lemma {:induction false} LiveIsBrought<F>(ops: seq<Op<F>>, e: (nat, F))
    requires e in Run(Registry([], 0), ops).live
    ensures Brought(ops, e.1)
  {
    if ops != [] {
      var (init, op) := (ops[..|ops| - 1], ops[|ops| - 1]);
      StepBrings(Run(Registry([], 0), init), op, e);
      if Brings(op, e.1) {
        assert Brings(ops[|ops| - 1], e.1);
      } else {
        LiveIsBrought(init, e);
        var i :| 0 <= i < |init| && Brings(init[i], e.1);
        assert Brings(ops[i], e.1);
      }
    }
  }

  /** A clear restarts the ids. So, whatever went before it, an id names an interceptor again
      exactly when that many have been registered since and that one has not been ejected;
      and what it names was brought in after the clear. */
  lemma StaleIdNamesAnother<F>(before: seq<Op<F>>, after: seq<Op<F>>, id: nat)
    requires forall i :: 0 <= i < |after| ==> after[i] != Cleared
    ensures var r := Run(Registry([], 0), before + [Cleared] + after);
            && (IsLive(r, id) <==> id < Registrations(after) && !TakenOut(Registry([], 0), after, id))
            && (forall e :: e in r.live ==> Brought(after, e.1))
  {
    ClearForgets(Registry([], 0), before, after);
    LiveExactly(after, id);
    forall e | e in Run(Registry([], 0), after).live ensures Brought(after, e.1) { LiveIsBrought(after, e); }
  }
}
