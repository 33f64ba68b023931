/** Induction over numbers and over sequences, for properties that are costly to unfold. */
module Induction {
  lemma {:induction false} Climb(holds: nat -> bool, limit: nat, n: nat)
    requires n <= limit && holds(0)
    requires forall k: nat :: k < limit && holds(k) ==> holds(k + 1)
    ensures holds(n)
  {
    if n > 0 { Climb(holds, limit, n - 1); }
  }

  lemma {:induction false} Descend(holds: nat -> bool, top: nat, n: nat)
    requires n <= top && holds(top)
    requires forall k: nat :: k < top && holds(k + 1) ==> holds(k)
    ensures holds(n)
    decreases top - n
  {
    if n < top { Descend(holds, top, n + 1); }
  }

  function With<T>(init: seq<T>, last: T): seq<T> {
    init + [last]
  }

  lemma {:induction false} ElementByElement<T(!new)>(holds: seq<T> -> bool, s: seq<T>)
    requires holds([])
    requires forall init, last :: holds(init) ==> holds(With(init, last))
    ensures holds(s)
  {
    if s != [] {
      var (init, last) := (s[..|s| - 1], s[|s| - 1]);
      ElementByElement(holds, init);
      assert s == With(init, last);
    }
  }
}
