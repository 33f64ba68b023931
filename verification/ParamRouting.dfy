/** The routing of arguments as the code does it, and where each key lands in the slots. */
module ParamRouting {
  import opened Wrappers
  import opened Params

  // ----- two ways to change the slots -----

  /** The other slots are as they were. */
  predicate OthersKept(before: Slots, slot: Slot, after: Slots) {
    forall s: Slot :: s != slot ==> At(after, s) == At(before, s)
  }

  /** The value stands under `key` of `slot`, beside what the record held; a slot that holds
      null or a primitive takes no field. */
  ghost predicate Puts(before: Slots, slot: Slot, key: string, value: Value, after: Result<Slots, Error>) {
    var was := At(before, slot);
    if was.Fixed? then after == Err(TypeError)
    else
      && after.Ok? && OthersKept(before, slot, after.value)
      && At(after.value, slot).Record?
      && At(after.value, slot).fields == (if was.Record? then was.fields else map[])[key := value]
      && (At(after.value, slot).isArray <==> was.Record? && was.isArray)
  }

  /** The value has become the slot. */
  ghost predicate Becomes(before: Slots, slot: Slot, value: Value, after: Result<Slots, Error>) {
    && after.Ok? && OthersKept(before, slot, after.value)
    && match At(after.value, slot)
       case Nothing => value.Undefined?
       case Fixed(v) => v == value && (value.Null? || value.Primitive?)
       case Record(fields, isArray) =>
         value.Object? && isArray == value.isArray && forall key :: LooksUp(value.fields, key, fields)
  }

  /** The map has the last value of the list under `key`, if there is one. */
  ghost predicate LooksUp(list: seq<(string, Value)>, key: string, fields: map<string, Value>) {
    if key in fields then exists i :: IsLastAt(list, key, i) && list[i].1 == fields[key]
    else forall i :: 0 <= i < |list| ==> list[i].0 != key
  }

  predicate IsLastAt(list: seq<(string, Value)>, key: string, i: int) {
    0 <= i < |list| && list[i].0 == key && forall j :: i < j < |list| ==> list[j].0 != key
  }

  lemma {:induction false} FieldMapLooksUp(list: seq<(string, Value)>, key: string)
    ensures LooksUp(list, key, FieldMap(list))
  {
    if list != [] {
      var n := |list| - 1;
      FieldMapLooksUp(list[..n], key);
      if list[n].0 == key {
        assert IsLastAt(list, key, n);
      } else if key in FieldMap(list) {
        var i :| IsLastAt(list[..n], key, i) && list[..n][i].1 == FieldMap(list[..n])[key];
        assert IsLastAt(list, key, i) && list[i].1 == FieldMap(list)[key];
      }
    }
  }

  lemma WritePuts(before: Slots, slot: Slot, key: string, value: Value)
    ensures Puts(before, slot, key, value, Apply(before, Write(slot, key, value)))
  {
  }

  lemma ReplaceBecomes(before: Slots, slot: Slot, value: Value)
    ensures Becomes(before, slot, value, Apply(before, Replace(slot, value)))
  {
    if value.Object? {
      forall key ensures LooksUp(value.fields, key, FieldMap(value.fields)) { FieldMapLooksUp(value.fields, key); }
    }
  }

  // ----- where a key lands -----

  predicate IsRenamed(rename: Option<string>) {
    rename.Some? && rename.value != ""
  }

  predicate IsFirstAllowed(config: Config, i: int) {
    && config.Group? && 0 <= i < |config.allowExtra| && config.allowExtra[i].1
    && forall j :: 0 <= j < i ==> !config.allowExtra[j].1
  }

  /** A declared key goes where its last declaration says. */
  ghost predicate LandsDeclared(entry: Entry, key: string, value: Value, before: Slots, after: Result<Slots, Error>) {
    match entry
    case Mapped(slot, rename) => Puts(before, slot, if IsRenamed(rename) then rename.value else key, value, after)
    case Whole(slot) => Becomes(before, slot, value, after)
  }

  /** Another key goes where its prefix says, without it; failing that, into the first slot that
      the configuration allows extra keys in; failing that, nowhere. */
  ghost predicate LandsExtra(config: Config, key: string, value: Value, before: Slots, after: Result<Slots, Error>) {
    if "$body_" <= key then Puts(before, Body, key[6..], value, after)
    else if "$headers_" <= key then Puts(before, Headers, key[9..], value, after)
    else if "$path_" <= key then Puts(before, Path, key[6..], value, after)
    else if "$query_" <= key then Puts(before, Query, key[7..], value, after)
    else
      && (forall i :: IsFirstAllowed(config, i) ==> Puts(before, config.allowExtra[i].0, key, value, after))
      && ((forall i :: !IsFirstAllowed(config, i)) ==> after == Ok(before))
  }

  ghost predicate Lands(fields: seq<Config>, config: Config, entry: (string, Value), before: Slots,
                        after: Result<Slots, Error>)
  {
    var declared := LastOf(Declared(fields), entry.0);
    if declared.Some? then LandsDeclared(declared.value, entry.0, entry.1, before, after)
    else LandsExtra(config, entry.0, entry.1, before, after)
  }

  lemma DeclaredIsKey(fields: seq<Config>, key: string)
    ensures LastOf(Declared(fields), key) == if key in KeysOf(fields) then Some(KeysOf(fields)[key]) else None
  {
    KeyMapIsLastWins(map[], Declared(fields), key);
  }

  lemma {:induction false} FirstAllowedIs(allowExtra: seq<(Slot, bool)>, args: seq<Config>)
    ensures var first := FirstAllowed(allowExtra);
            if first.Some? then exists i :: IsFirstAllowed(Group(allowExtra, args), i) && allowExtra[i].0 == first.value
            else forall i :: !IsFirstAllowed(Group(allowExtra, args), i)
  {
    if allowExtra != [] && !allowExtra[0].1 {
      FirstAllowedIs(allowExtra[1..], args);
      if FirstAllowed(allowExtra).Some? {
        var i :| IsFirstAllowed(Group(allowExtra[1..], args), i) &&
          allowExtra[1..][i].0 == FirstAllowed(allowExtra).value;
        assert IsFirstAllowed(Group(allowExtra, args), i + 1);
      } else {
        forall i ensures !IsFirstAllowed(Group(allowExtra, args), i) {
          assert !IsFirstAllowed(Group(allowExtra[1..], args), i - 1);
        }
      }
    } else if allowExtra != [] {
      assert IsFirstAllowed(Group(allowExtra, args), 0);
    }
  }

  /** The slots after one entry, as the operations give them. */
  function AfterEntry(keys: KeyMap, config: Config, entry: (string, Value), slots: Slots): Result<Slots, Error> {
    var op := Destination(keys, config, entry.0, entry.1);
    if op.Some? then Apply(slots, op.value) else Ok(slots)
  }

  lemma PrefixLands(config: Config, key: string, value: Value, slots: Slots)
    requires FirstPrefix(key, 0).Some?
    ensures var (prefix, slot) := FirstPrefix(key, 0).value;
            LandsExtra(config, key, value, slots, Apply(slots, Write(slot, key[|prefix|..], value)))
  {
    var (prefix, slot) := FirstPrefix(key, 0).value;
    WritePuts(slots, slot, key[|prefix|..], value);
    assert PREFIXES[0] == ("$body_", Body) && PREFIXES[1] == ("$headers_", Headers);
    assert PREFIXES[2] == ("$path_", Path) && PREFIXES[3] == ("$query_", Query);
  }

  lemma ExtraLands(config: Config, key: string, value: Value, slots: Slots)
    requires FirstPrefix(key, 0).None?
    ensures var first := if config.Group? then FirstAllowed(config.allowExtra) else None;
            LandsExtra(config, key, value, slots,
                       if first.Some? then Apply(slots, Write(first.value, key, value)) else Ok(slots))
  {
    assert PREFIXES[0].0 == "$body_" && PREFIXES[1].0 == "$headers_";
    assert PREFIXES[2].0 == "$path_" && PREFIXES[3].0 == "$query_";
    if config.Group? {
      FirstAllowedIs(config.allowExtra, config.args);
      if FirstAllowed(config.allowExtra).Some? { WritePuts(slots, FirstAllowed(config.allowExtra).value, key, value); }
    }
  }

  lemma EntryLands(fields: seq<Config>, config: Config, entry: (string, Value), slots: Slots)
    ensures Lands(fields, config, entry, slots, AfterEntry(KeysOf(fields), config, entry, slots))
  {
    var (key, value) := entry;
    DeclaredIsKey(fields, key);
    if key in KeysOf(fields) {
      match KeysOf(fields)[key]
      case Mapped(slot, rename) => WritePuts(slots, slot, NameOf(rename, key), value);
      case Whole(slot) => ReplaceBecomes(slots, slot, value);
    } else if FirstPrefix(key, 0).Some? {
      PrefixLands(config, key, value, slots);
    } else {
      ExtraLands(config, key, value, slots);
    }
  }

  // ----- one argument -----

  ghost predicate EntriesLand(fields: seq<Config>, config: Config, entries: seq<(string, Value)>, before: Slots,
                              r: Result<Slots, Error>)
    decreases |entries|
  {
    if entries == [] then r == Ok(before)
    else
      var n := |entries| - 1;
      exists mid ::
        && EntriesLand(fields, config, entries[..n], before, mid)
        && if mid.Err? then r == mid else Lands(fields, config, entries[n], mid.value, r)
  }

  /** A positional field goes where the last declaration of its key says, unless that has become
      a whole-slot alias; a body without key becomes the body; any other argument is gone
      through entry by entry. */
  ghost predicate ArgLands(fields: seq<Config>, config: Config, arg: Value, before: Slots, r: Result<Slots, Error>) {
    if config.In? && config.key == "" then Becomes(before, Body, arg, r)
    else if config.In? then
      match LastOf(Declared(fields), config.key)
      case Some(Mapped(slot, rename)) =>
        Puts(before, slot, if IsRenamed(rename) then rename.value else config.key, arg, r)
      case _ => r == Ok(before)
    else
      match arg
      case Primitive(own) => EntriesLand(fields, config, own, before, r)
      case Object(entries, _) => EntriesLand(fields, config, entries, before, r)
      case _ => r == Ok(before)
  }

  lemma AfterLastEntry(keys: KeyMap, config: Config, entries: seq<(string, Value)>, slots: Slots)
    requires entries != []
    ensures var (init, last) := (entries[..|entries| - 1], entries[|entries| - 1]);
            var mid := ApplyAll(slots, OpsOfEntries(keys, config, init));
            ApplyAll(slots, OpsOfEntries(keys, config, entries)) ==
            if mid.Err? then mid else AfterEntry(keys, config, last, mid.value)
  {
    var (init, last) := (entries[..|entries| - 1], entries[|entries| - 1]);
    var before := OpsOfEntries(keys, config, init);
    var op := Destination(keys, config, last.0, last.1);
    if op.Some? {
      assert (before + [op.value])[..|before|] == before;
    } else {
      assert before + [] == before;
    }
  }

  lemma {:induction false} EntriesDoLand(fields: seq<Config>, config: Config, entries: seq<(string, Value)>,
                                         slots: Slots)
    ensures EntriesLand(fields, config, entries, slots,
                        ApplyAll(slots, OpsOfEntries(KeysOf(fields), config, entries)))
  {
    if entries != [] {
      var n := |entries| - 1;
      EntriesDoLand(fields, config, entries[..n], slots);
      var mid := ApplyAll(slots, OpsOfEntries(KeysOf(fields), config, entries[..n]));
      AfterLastEntry(KeysOf(fields), config, entries, slots);
      if mid.Ok? { EntryLands(fields, config, entries[n], mid.value); }
      assert EntriesLand(fields, config, entries[..n], slots, mid);
    }
  }

  lemma ArgDoesLand(fields: seq<Config>, config: Config, arg: Value, slots: Slots)
    ensures ArgLands(fields, config, arg, slots, ApplyAll(slots, OpsOfArg(KeysOf(fields), config, arg)))
  {
    if !config.In? {
      EntriesDoLand(fields, config, EntriesOf(arg), slots);
    } else if config.key == "" {
      OneMore(slots, [], Replace(Body, arg));
      ReplaceBecomes(slots, Body, arg);
    } else {
      DeclaredIsKey(fields, config.key);
      if config.key in KeysOf(fields) && KeysOf(fields)[config.key].Mapped? {
        var entry := KeysOf(fields)[config.key];
        var op := Write(entry.slot, NameOf(entry.rename, config.key), arg);
        OneMore(slots, [], op);
        WritePuts(slots, op.slot, op.key, arg);
      }
    }
  }

  // ----- all arguments -----

  /** Every argument lands under the configuration at its position, or else under the last one. */
  ghost predicate ArgsLand(fields: seq<Config>, args: seq<Value>, before: Slots, r: Result<Slots, Error>)
    decreases |args|
  {
    if args == [] then r == Ok(before)
    else
      var n := |args| - 1;
      exists mid ::
        && ArgsLand(fields, args[..n], before, mid)
        && if mid.Err? then r == mid
           else if fields == [] then r == mid
           else ArgLands(fields, if n < |fields| then fields[n] else fields[|fields| - 1], args[n], mid.value, r)
  }

  predicate IsFresh(slots: Slots) {
    forall slot :: At(slots, slot) == if slot == Body then Nothing else Record(map[], false)
  }

  /** Everything lands in three empty slots and an absent body; then what is still an empty
      record is removed, except for the body. */
  ghost predicate IsRouted(fields: seq<Config>, args: seq<Value>, r: Result<Slots, Error>) {
    exists start, mid :: IsFresh(start) && ArgsLand(fields, args, start, mid) && IsFinished(mid, r)
  }

  predicate IsFinished(mid: Result<Slots, Error>, r: Result<Slots, Error>) {
    if mid.Err? then r == mid else r.Ok? && IsStripped(mid.value, r.value)
  }

  predicate IsStripped(slots: Slots, stripped: Slots) {
    && (forall slot :: slot in stripped ==> slot in slots && stripped[slot] == slots[slot])
    && (forall slot :: slot in slots ==>
          (slot !in stripped <==> slot != Body && slots[slot] == Record(map[], false)))
  }

  lemma OpsOfPrefix(keys: KeyMap, fields: seq<Config>, args: seq<Value>, n: nat, m: nat)
    requires n <= m <= |args|
    ensures OpsOf(keys, fields, args[..m], n) == OpsOf(keys, fields, args, n)
  {
    if n > 0 { OpsOfPrefix(keys, fields, args, n - 1, m); }
  }

  lemma {:induction false} ArgsDoLand(fields: seq<Config>, args: seq<Value>)
    ensures ArgsLand(fields, args, FRESH, ApplyAll(FRESH, OpsOf(KeysOf(fields), fields, args, |args|)))
  {
    if args != [] {
      var (n, keys) := (|args| - 1, KeysOf(fields));
      ArgsDoLand(fields, args[..n]);
      OpsOfPrefix(keys, fields, args, n, n);
      var mid := ApplyAll(FRESH, OpsOf(keys, fields, args, n));
      ApplyAppend(FRESH, OpsOf(keys, fields, args, n), OpsAt(keys, fields, args, n));
      if mid.Ok? && fields != [] { ArgDoesLand(fields, ConfigAt(fields, n).value, args[n], mid.value); }
      assert ArgsLand(fields, args[..n], FRESH, mid);
    }
  }

  lemma RoutesAll(fields: seq<Config>, args: seq<Value>, r: Result<Slots, Error>)
    requires IsFinished(ApplyAll(FRESH, OpsOf(KeysOf(fields), fields, args, |args|)), r)
    ensures IsRouted(fields, args, r)
  {
    ArgsDoLand(fields, args);
    assert IsFresh(FRESH);
  }

  lemma StripIsStripped(slots: Slots)
    ensures IsStripped(slots, Strip(slots))
  {
  }

  // ----- the code -----

  /** The loop over the entries of an object argument. */
  method RouteEntries(ghost fields: seq<Config>, keys: KeyMap, config: Config, entries: seq<(string, Value)>,
                      slots: Slots) returns (r: Result<Slots, Error>)
    requires keys == KeysOf(fields)
    ensures EntriesLand(fields, config, entries, slots, r)
    ensures r == ApplyAll(slots, OpsOfEntries(keys, config, entries))
  {
    var params := slots;
    EntriesDoLand(fields, config, entries, slots);
    for i := 0 to |entries|
      invariant ApplyAll(slots, OpsOfEntries(keys, config, entries[..i])) == Ok(params)
    {
      var (key, value) := entries[i];
      ghost var before := OpsOfEntries(keys, config, entries[..i]);
      assert entries[..i + 1][..i] == entries[..i];
      EntryOps(keys, config, entries, i);
      var op := Destination(keys, config, key, value);
      if op.Some? {
        var written := Apply(params, op.value);
        OneMore(slots, before, op.value);
        if written.Err? {
          EntriesFail(keys, config, entries, i + 1, slots);
          return written;
        }
        params := written.value;
      } else {
        assert before + [] == before;
      }
    }
    assert entries[..|entries|] == entries;
    return Ok(params);
  }

  /** One positional argument under the configuration in force. */
  method RouteArg(ghost fields: seq<Config>, keys: KeyMap, config: Config, arg: Value, slots: Slots)
    returns (r: Result<Slots, Error>)
    requires keys == KeysOf(fields)
    ensures ArgLands(fields, config, arg, slots, r)
    ensures r == ApplyAll(slots, OpsOfArg(keys, config, arg))
  {
    ArgDoesLand(fields, config, arg, slots);
    if config.In? {
      if config.key == "" {
        OneMore(slots, [], Replace(Body, arg));
        r := Apply(slots, Replace(Body, arg));
      } else if config.key in keys && keys[config.key].Mapped? {
        var op := Write(keys[config.key].slot, NameOf(keys[config.key].rename, config.key), arg);
        OneMore(slots, [], op);
        r := Apply(slots, op);
      } else {
        r := Ok(slots);
      }
    } else {
      r := RouteEntries(fields, keys, config, EntriesOf(arg), slots);
    }
  }

  lemma NextArg(keys: KeyMap, fields: seq<Config>, args: seq<Value>, n: nat)
    requires n < |args| && ApplyAll(FRESH, OpsOf(keys, fields, args, n)).Ok?
    ensures var config := ConfigAt(fields, n);
            var params := ApplyAll(FRESH, OpsOf(keys, fields, args, n)).value;
            ApplyAll(FRESH, OpsOf(keys, fields, args, n + 1)) ==
            if config.None? then Ok(params) else ApplyAll(params, OpsOfArg(keys, config.value, args[n]))
  {
    ApplyAppend(FRESH, OpsOf(keys, fields, args, n), OpsAt(keys, fields, args, n));
  }

  /** `buildClientParams` */
  method BuildClientParams(args: seq<Value>, fields: seq<Config>) returns (r: Result<Slots, Error>)
    ensures IsRouted(fields, args, r)
    ensures IsBuilt(OpsOf(KeysOf(fields), fields, args, |args|), r)
  {
    var keys := BuildKeyMap(fields, map[]);
    var params := FRESH;
    var config: Option<Config> := None;
    for index := 0 to |args|
      invariant config == if index == 0 then None else ConfigAt(fields, index - 1)
      invariant ApplyAll(FRESH, OpsOf(keys, fields, args, index)) == Ok(params)
    {
      if index < |fields| {
        config := Some(fields[index]);
      }
      NextArg(keys, fields, args, index);
      if config.Some? {
        var routed := RouteArg(fields, keys, config.value, args[index], params);
        if routed.Err? {
          ArgsFail(keys, fields, args, index + 1, FRESH);
          RoutesAll(fields, args, routed);
          RoutingThrows(OpsOf(keys, fields, args, |args|));
          return routed;
        }
        params := routed.value;
      }
    }
    RoutingEnds(OpsOf(keys, fields, args, |args|));
    StripIsStripped(params);
    params := StripEmptySlots(params);
    RoutesAll(fields, args, Ok(params));
    return Ok(params);
  }
}
