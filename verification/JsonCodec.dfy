/** The strict JSON codec: decoding an object field by field into a struct, with a
    bit set of the required fields that were seen. */
module JsonCodec {
  import opened Wrappers

  datatype Json = Str(text: string) | Arr(items: seq<Json>) | Obj(fields: seq<(string, Json)>) | OtherJson

  datatype Error =
    | NotAnObject
    | UnexpectedField(name: string)
    | BadField(name: string)
    | MissingFields(names: seq<string>)

  // ----- bit sets of field indices -----

  function Bit(i: nat): bv8 {
    match i
    case 0 => 1
    case 1 => 2
    case 2 => 4
    case 3 => 8
    case 4 => 16
    case 5 => 32
    case 6 => 64
    case 7 => 128
    case _ => 0
  }

  predicate HasBit(b: bv8, i: nat) {
    b & Bit(i) != 0
  }

  lemma BitOr(b: bv8, i: nat, j: nat)
    requires i < 8 && j < 8
    ensures HasBit(b | Bit(j), i) <==> i == j || HasBit(b, i)
  {
    assert i != j ==> Bit(j) & Bit(i) == 0;
    assert (b | Bit(j)) & Bit(i) == (b & Bit(i)) | (Bit(j) & Bit(i));
  }

  /** `b` with bit `i` reset. */
  function Without(b: bv8, i: nat): bv8 {
    b & !Bit(i)
  }

  lemma BitClear(b: bv8, i: nat, j: nat)
    requires i < 8 && j < 8
    ensures HasBit(Without(b, j), i) <==> i != j && HasBit(b, i)
  {
    if i == j {
      assert (b & !Bit(j)) & Bit(j) == 0;
    } else {
      assert !Bit(j) & Bit(i) == Bit(i);
      assert (b & !Bit(j)) & Bit(i) == b & (!Bit(j) & Bit(i));
    }
  }

  lemma BitMissed(b: bv8, mask: bv8, i: nat)
    requires i < 8
    ensures HasBit((b & mask) ^ mask, i) <==> HasBit(mask, i) && !HasBit(b, i)
  {
    assert Bit(i) != 0 && (b & Bit(i) == 0 || b & Bit(i) == Bit(i)) && (mask & Bit(i) == 0 || mask & Bit(i) == Bit(i));
    assert ((b & mask) ^ mask) & Bit(i) == ((b & Bit(i)) & (mask & Bit(i))) ^ (mask & Bit(i));
  }

  /** The set bits from `i` on, in increasing order. */
  function SetBits(b: bv8, i: nat): seq<nat>
    requires i <= 8
    decreases 8 - i
  {
    if i == 8 then [] else (if HasBit(b, i) then [i] else []) + SetBits(b, i + 1)
  }

  /** `ids` lists the set bits of `b` in increasing order. */
  ghost predicate Lists(b: bv8, ids: seq<nat>) {
    && (forall k :: 0 <= k < |ids| ==> ids[k] < 8 && HasBit(b, ids[k]))
    && (forall k, l :: 0 <= k < l < |ids| ==> ids[k] < ids[l])
    && (forall i :: 0 <= i < 8 && HasBit(b, i) ==> i in ids)
  }

  lemma {:induction false} SetBitsFrom(b: bv8, i: nat)
    requires i <= 8
    ensures var ids := SetBits(b, i);
            && (forall k :: 0 <= k < |ids| ==> i <= ids[k] < 8 && HasBit(b, ids[k]))
            && (forall k, l :: 0 <= k < l < |ids| ==> ids[k] < ids[l])
            && (forall j :: i <= j < 8 && HasBit(b, j) ==> j in ids)
    decreases 8 - i
  {
    if i < 8 { SetBitsFrom(b, i + 1); }
  }

  /** `bits.OnesCount8` */
  method OnesCount(b: bv8) returns (n: nat)
    ensures n == |SetBits(b, 0)|
  {
    n := 0;
    for i := 0 to 8
      invariant n + |SetBits(b, i)| == |SetBits(b, 0)|
    {
      if HasBit(b, i) { n := n + 1; }
    }
  }

  /** `bits.TrailingZeros8` */
  method TrailingZeros(b: bv8) returns (z: nat)
    ensures z <= 8 && (z < 8 ==> HasBit(b, z)) && forall k :: 0 <= k < z ==> !HasBit(b, k)
  {
    z := 0;
    while z < 8 && !HasBit(b, z)
      invariant z <= 8 && forall k :: 0 <= k < z ==> !HasBit(b, k)
    {
      z := z + 1;
    }
  }

  /** Resetting the lowest set bit takes the first index off the list. */
  lemma LowestBit(b: bv8, ids: seq<nat>, z: nat)
    requires Lists(b, ids) && ids != []
    requires z <= 8 && (z < 8 ==> HasBit(b, z)) && forall k :: 0 <= k < z ==> !HasBit(b, k)
    ensures z == ids[0] && Lists(Without(b, z), ids[1..])
  {
    assert HasBit(b, ids[0]) && ids[0] < 8;
    assert z <= ids[0];
    assert z in ids;
    forall i | 0 <= i < 8 ensures HasBit(Without(b, z), i) <==> i != z && HasBit(b, i) { BitClear(b, i, z); }
  }

  /** The name reported for a field index, or the index itself beyond the table. */
  function NameAt(names: seq<string>, i: nat): string {
    if i < |names| then names[i] else if i < 10 then [('0' as int + i) as char] else "?"
  }

  function NamesAt(names: seq<string>, indices: seq<nat>): seq<string> {
    seq(|indices|, k requires 0 <= k < |indices| => NameAt(names, indices[k]))
  }

  // ----- decoding an object -----

  /** What the generator knows of a struct: its field names in order, the required ones
      as a mask, and how a field's value is decoded into the struct (None on failure). */
  datatype Shape<!S> = Shape(names: seq<string>, mask: bv8, assign: (S, nat, Json) -> Option<S>)

  predicate WellShaped<S>(shape: Shape<S>) {
    |shape.names| <= 8 && forall k :: 0 <= k < 8 && HasBit(shape.mask, k) ==> k < |shape.names|
  }

  /** The index of a field name, as the switch over the key finds it. */
  function IndexOf(names: seq<string>, name: string): (i: int)
    ensures -1 <= i < |names| && (i >= 0 ==> names[i] == name)
  {
    if names == [] then -1
    else
      var before := IndexOf(names[..|names| - 1], name);
      if before >= 0 then before else if names[|names| - 1] == name then |names| - 1 else -1
  }

  /** The struct after the first `n` fields. */
  function Filled<S>(shape: Shape<S>, s: S, fields: seq<(string, Json)>, n: nat): Result<S, Error>
    requires n <= |fields|
  {
    if n == 0 then Ok(s)
    else
      var before := Filled(shape, s, fields, n - 1);
      if before.Err? then before
      else
        var (name, value) := fields[n - 1];
        var i := IndexOf(shape.names, name);
        if i < 0 then Err(UnexpectedField(name))
        else
          var after := shape.assign(before.value, i, value);
          if after.None? then Err(BadField(name)) else Ok(after.value)
  }

  /** The required field `i` occurs among the first `n` fields. */
  predicate Seen<S>(shape: Shape<S>, fields: seq<(string, Json)>, n: nat, i: nat)
    requires n <= |fields|
  {
    HasBit(shape.mask, i) && exists k :: 0 <= k < n && IndexOf(shape.names, fields[k].0) == i
  }

  /** The required fields that do not occur, in index order. */
  function MissingFrom<S>(shape: Shape<S>, fields: seq<(string, Json)>, i: nat): seq<string>
    requires i <= 8 && WellShaped(shape)
    decreases 8 - i
  {
    if i == 8 then []
    else
      (if HasBit(shape.mask, i) && !Seen(shape, fields, |fields|, i) then [shape.names[i]] else []) +
      MissingFrom(shape, fields, i + 1)
  }

  function Decoded<S>(shape: Shape<S>, s: S, json: Json): Result<S, Error>
    requires WellShaped(shape)
  {
    if !json.Obj? then Err(NotAnObject)
    else
      var filled := Filled(shape, s, json.fields, |json.fields|);
      var missing := MissingFrom(shape, json.fields, 0);
      if filled.Ok? && missing != [] then Err(MissingFields(missing)) else filled
  }

  /** The bits of `mask` that `seen` lacks. */
  function Unseen(seen: bv8, mask: bv8): bv8 {
    (seen & mask) ^ mask
  }

  /** Reports `missed` fields, lowest index first. */
  method Report(names: seq<string>, unseen: bv8, missed: nat, ghost all: seq<nat>) returns (failures: seq<string>)
    requires Lists(unseen, all) && missed == |all|
    ensures failures == NamesAt(names, all)
  {
    failures := [];
    var result := unseen;
    for bitN := 0 to missed
      invariant Lists(result, all[bitN..])
      invariant failures == NamesAt(names, all[..bitN])
    {
      var bitIdx := TrailingZeros(result);
      LowestBit(result, all[bitN..], bitIdx);
      assert all[bitN..][1..] == all[bitN + 1..];
      failures := failures + [NameAt(names, bitIdx)];
      result := Without(result, bitIdx);
    }
    assert all[..missed] == all;
  }

  /** The required fields whose bits were not set. */
  method Failures(names: seq<string>, seen: bv8, mask: bv8) returns (failures: seq<string>)
    ensures failures == NamesAt(names, SetBits(Unseen(seen, mask), 0))
  {
    failures := [];
    var result := Unseen(seen, mask);
    if result != 0 {
      var missed := OnesCount(result);
      SetBitsFrom(result, 0);
      failures := Report(names, result, missed, SetBits(result, 0));
    } else {
      NoBits(0);
    }
  }

  lemma {:induction false} NoBits(i: nat)
    requires i <= 8
    ensures SetBits(0, i) == []
    decreases 8 - i
  {
    if i < 8 {
      assert 0 & Bit(i) == 0;
      NoBits(i + 1);
    }
  }

  /** The bit set holds exactly the required fields among the first `n`. */
  predicate Tracks<S>(shape: Shape<S>, fields: seq<(string, Json)>, n: nat, bits: bv8)
    requires n <= |fields|
  {
    forall k {:trigger HasBit(bits, k)} :: 0 <= k < 8 ==> (HasBit(bits, k) <==> Seen(shape, fields, n, k))
  }

  lemma NamesOfBit(names: seq<string>, here: bool, i: nat, rest: seq<nat>)
    ensures NamesAt(names, (if here then [i] else []) + rest) ==
            (if here then [NameAt(names, i)] else []) + NamesAt(names, rest)
  {
    var none: seq<nat> := [];
    assert none + rest == rest;
  }

  lemma MissedBit<S>(shape: Shape<S>, fields: seq<(string, Json)>, bits: bv8, i: nat)
    requires i < 8 && Tracks(shape, fields, |fields|, bits)
    ensures HasBit(Unseen(bits, shape.mask), i) <==>
            HasBit(shape.mask, i) && !Seen(shape, fields, |fields|, i)
  {
    BitMissed(bits, shape.mask, i);
    assert HasBit(bits, i) <==> Seen(shape, fields, |fields|, i);
  }

  lemma {:induction false} MissingFromBits<S>(shape: Shape<S>, fields: seq<(string, Json)>, bits: bv8, i: nat)
    requires i <= 8 && WellShaped(shape) && Tracks(shape, fields, |fields|, bits)
    ensures NamesAt(shape.names, SetBits(Unseen(bits, shape.mask), i)) == MissingFrom(shape, fields, i)
    decreases 8 - i
  {
    if i < 8 {
      MissingFromBits(shape, fields, bits, i + 1);
      MissedBit(shape, fields, bits, i);
      NamesOfBit(shape.names, HasBit(Unseen(bits, shape.mask), i), i, SetBits(Unseen(bits, shape.mask), i + 1));
    }
  }

  lemma {:induction false} FailureStays<S>(shape: Shape<S>, s: S, fields: seq<(string, Json)>, n: nat, m: nat)
    requires n <= m <= |fields| && Filled(shape, s, fields, n).Err?
    ensures Filled(shape, s, fields, m) == Filled(shape, s, fields, n)
  {
    if n < m { FailureStays(shape, s, fields, n, m - 1); }
  }

  /** `Decode`: the callback over the fields, then the check of the required ones. */
  method Decode<S>(shape: Shape<S>, target: S, json: Json) returns (r: Result<S, Error>)
    requires WellShaped(shape)
    ensures r == Decoded(shape, target, json)
  {
    if !json.Obj? {
      return Err(NotAnObject);
    }
    var s := target;
    var requiredBitSet: bv8 := 0;
    var fields := json.fields;
    NothingSeen(shape, fields);
    for n := 0 to |fields|
      invariant Filled(shape, target, fields, n) == Ok(s)
      invariant Tracks(shape, fields, n, requiredBitSet)
    {
      var (name, value) := fields[n];
      var i := IndexOf(shape.names, name);
      if i < 0 {
        FailureStays(shape, target, fields, n + 1, |fields|);
        return Err(UnexpectedField(name));
      }
      SeenNext(shape, fields, n, requiredBitSet);
      if HasBit(shape.mask, i) {
        requiredBitSet := requiredBitSet | Bit(i);
      }
      var after := shape.assign(s, i, value);
      if after.None? {
        FailureStays(shape, target, fields, n + 1, |fields|);
        return Err(BadField(name));
      }
      s := after.value;
    }
    MissingFromBits(shape, fields, requiredBitSet, 0);
    var failures := Failures(shape.names, requiredBitSet, shape.mask);
    if |failures| > 0 {
      return Err(MissingFields(failures));
    }
    return Ok(s);
  }

  lemma NothingSeen<S>(shape: Shape<S>, fields: seq<(string, Json)>)
    ensures Tracks(shape, fields, 0, 0)
  {
    forall k | 0 <= k < 8 ensures !HasBit(0, k) { assert 0 & Bit(k) == 0; }
  }

  lemma SeenNext<S>(shape: Shape<S>, fields: seq<(string, Json)>, n: nat, bits: bv8)
    requires WellShaped(shape) && n < |fields| && IndexOf(shape.names, fields[n].0) >= 0
    requires Tracks(shape, fields, n, bits)
    ensures var i := IndexOf(shape.names, fields[n].0);
            Tracks(shape, fields, n + 1, if HasBit(shape.mask, i) then bits | Bit(i) else bits)
  {
    var i := IndexOf(shape.names, fields[n].0);
    var after := if HasBit(shape.mask, i) then bits | Bit(i) else bits;
    forall k | 0 <= k < 8 ensures HasBit(after, k) <==> Seen(shape, fields, n + 1, k) {
      BitOr(bits, k, i);
      SeenMore(shape, fields, n, k);
      assert HasBit(bits, k) <==> Seen(shape, fields, n, k);
    }
  }

  lemma SeenMore<S>(shape: Shape<S>, fields: seq<(string, Json)>, n: nat, k: nat)
    requires n < |fields|
    ensures Seen(shape, fields, n + 1, k) <==>
            Seen(shape, fields, n, k) || (HasBit(shape.mask, k) && IndexOf(shape.names, fields[n].0) == k)
  {
    if Seen(shape, fields, n, k) {
      var j :| 0 <= j < n && IndexOf(shape.names, fields[j].0) == k;
      assert 0 <= j < n + 1;
    }
  }
}
