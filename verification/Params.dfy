/** Routing of call arguments into the four request slots. */
module Params {
  import opened Wrappers

  datatype Slot = Body | Headers | Path | Query

  /** A value, as far as routing tells values apart: a primitive shows the entries that
      `Object.entries` gives for it; an object its fields in order. */
  datatype Value =
    | Undefined
    | Null
    | Primitive(own: seq<(string, Value)>)
    | Object(fields: seq<(string, Value)>, isArray: bool)

  /** One element of the fields configuration. `In` has an empty key where the source
      has none; `Group` is a `Fields` object. */
  datatype Config =
    | In(slot: Slot, key: string, rename: Option<string>)
    | Alias(key: string, whole: Slot)
    | Group(allowExtra: seq<(Slot, bool)>, args: seq<Config>)

  // ----- the key map -----

  datatype Entry = Mapped(slot: Slot, rename: Option<string>) | Whole(slot: Slot)

  type KeyMap = map<string, Entry>

  /** The keys a configuration declares, in order, groups flattened. */
  function Declared(fields: seq<Config>): seq<(string, Entry)> {
    if fields == [] then []
    else
      Declared(fields[..|fields| - 1]) +
      (match fields[|fields| - 1]
       case In(slot, key, rename) => if key == "" then [] else [(key, Mapped(slot, rename))]
       case Alias(key, whole) => [(key, Whole(whole))]
       case Group(_, args) => Declared(args))
  }

  function Overlay(m: KeyMap, pairs: seq<(string, Entry)>): KeyMap {
    if pairs == [] then m
    else Overlay(m, pairs[..|pairs| - 1])[pairs[|pairs| - 1].0 := pairs[|pairs| - 1].1]
  }

  /** The last of the pairs under a key. */
  function LastOf(pairs: seq<(string, Entry)>, key: string): Option<Entry> {
    if pairs == [] then None
    else if pairs[|pairs| - 1].0 == key then Some(pairs[|pairs| - 1].1)
    else LastOf(pairs[..|pairs| - 1], key)
  }

  lemma {:induction false} OverlayAppend(m: KeyMap, a: seq<(string, Entry)>, b: seq<(string, Entry)>)
    ensures Overlay(m, a + b) == Overlay(Overlay(m, a), b)
  {
    if b == [] {
      assert a + b == a;
    } else {
      OverlayAppend(m, a, b[..|b| - 1]);
      assert (a + b)[..|a + b| - 1] == a + b[..|b| - 1];
    }
  }

  /** `buildKeyMap`: the map is filled in place, a group by a recursive call. */
  method BuildKeyMap(fields: seq<Config>, m: KeyMap) returns (keys: KeyMap)
    ensures keys == Overlay(m, Declared(fields))
    decreases fields
  {
    keys := m;
    for i := 0 to |fields|
      invariant keys == Overlay(m, Declared(fields[..i]))
    {
      var config := fields[i];
      assert fields[..i + 1][..i] == fields[..i];
      ghost var before := Declared(fields[..i]);
      match config
      case In(slot, key, rename) =>
        if key != "" {
          keys := keys[key := Mapped(slot, rename)];
          OverlayAppend(m, before, [(key, Mapped(slot, rename))]);
        } else {
          assert before + [] == before;
        }
      case Alias(key, whole) =>
        keys := keys[key := Whole(whole)];
        OverlayAppend(m, before, [(key, Whole(whole))]);
      case Group(_, args) =>
        keys := BuildKeyMap(args, keys);
        OverlayAppend(m, before, Declared(args));
    }
    assert fields[..|fields|] == fields;
  }

  function KeysOf(fields: seq<Config>): KeyMap {
    Overlay(map[], Declared(fields))
  }

  /** The recursive key map is last-wins over the flattened declarations. */
  lemma {:induction false} KeyMapIsLastWins(m: KeyMap, pairs: seq<(string, Entry)>, key: string)
    ensures key in Overlay(m, pairs) <==> key in m || LastOf(pairs, key).Some?
    ensures LastOf(pairs, key).Some? ==> Overlay(m, pairs)[key] == LastOf(pairs, key).value
    ensures LastOf(pairs, key).None? && key in m ==> Overlay(m, pairs)[key] == m[key]
  {
    if pairs != [] { KeyMapIsLastWins(m, pairs[..|pairs| - 1], key); }
  }

  /** The declaration of a key that comes last, looked for from the end, in groups too. */
  function LastDeclared(fields: seq<Config>, key: string): Option<Entry> {
    if fields == [] then None
    else
      var found :=
        match fields[|fields| - 1]
        case In(slot, own, rename) => if own == key && key != "" then Some(Mapped(slot, rename)) else None
        case Alias(own, whole) => if own == key then Some(Whole(whole)) else None
        case Group(_, args) => LastDeclared(args, key);
      if found.Some? then found else LastDeclared(fields[..|fields| - 1], key)
  }

  lemma {:induction false} LastOfAppend(a: seq<(string, Entry)>, b: seq<(string, Entry)>, key: string)
    ensures LastOf(a + b, key) == if LastOf(b, key).Some? then LastOf(b, key) else LastOf(a, key)
  {
    if b == [] {
      assert a + b == a;
    } else {
      LastOfAppend(a, b[..|b| - 1], key);
      assert (a + b)[..|a + b| - 1] == a + b[..|b| - 1];
    }
  }

  /** Flattening the declarations loses none and keeps their order. */
  lemma {:induction false} LastDeclaration(fields: seq<Config>, key: string)
    ensures LastOf(Declared(fields), key) == LastDeclared(fields, key)
    decreases fields
  {
    if fields != [] {
      var (init, last) := (fields[..|fields| - 1], fields[|fields| - 1]);
      LastDeclaration(init, key);
      var added := match last
        case In(slot, own, rename) => if own == "" then [] else [(own, Mapped(slot, rename))]
        case Alias(own, whole) => [(own, Whole(whole))]
        case Group(_, args) => Declared(args);
      if last.Group? { LastDeclaration(last.args, key); }
      LastOfAppend(Declared(init), added, key);
    }
  }

  // ----- where an argument goes -----

  datatype Op = Write(slot: Slot, key: string, value: Value) | Replace(slot: Slot, value: Value)

  const PREFIXES: seq<(string, Slot)> :=
    [("$body_", Body), ("$headers_", Headers), ("$path_", Path), ("$query_", Query)]

  function FirstPrefix(key: string, i: nat): Option<(string, Slot)>
    requires i <= |PREFIXES|
    decreases |PREFIXES| - i
  {
    if i == |PREFIXES| then None
    else if PREFIXES[i].0 <= key then Some(PREFIXES[i])
    else FirstPrefix(key, i + 1)
  }

  function FirstAllowed(allowExtra: seq<(Slot, bool)>): Option<Slot> {
    if allowExtra == [] then None
    else if allowExtra[0].1 then Some(allowExtra[0].0)
    else FirstAllowed(allowExtra[1..])
  }

  /** `field.map || key` */
  function NameOf(rename: Option<string>, key: string): string {
    if rename.Some? && rename.value != "" then rename.value else key
  }

  /** The one destination of a key in an object argument; None drops it. */
  function Destination(keys: KeyMap, config: Config, key: string, value: Value): Option<Op> {
    if key in keys then
      match keys[key]
      case Mapped(slot, rename) => Some(Write(slot, NameOf(rename, key), value))
      case Whole(slot) => Some(Replace(slot, value))
    else
      var extra := FirstPrefix(key, 0);
      if extra.Some? then Some(Write(extra.value.1, key[|extra.value.0|..], value))
      else if config.Group? && FirstAllowed(config.allowExtra).Some? then
        Some(Write(FirstAllowed(config.allowExtra).value, key, value))
      else None
  }

  /** `Object.entries(arg ?? {})` */
  function EntriesOf(arg: Value): seq<(string, Value)> {
    match arg
    case Primitive(own) => own
    case Object(fields, _) => fields
    case _ => []
  }

  function OpsOfEntries(keys: KeyMap, config: Config, entries: seq<(string, Value)>): seq<Op> {
    if entries == [] then []
    else
      var last := entries[|entries| - 1];
      var op := Destination(keys, config, last.0, last.1);
      OpsOfEntries(keys, config, entries[..|entries| - 1]) + (if op.Some? then [op.value] else [])
  }

  /** What one positional argument writes. A positional field that a later declaration
      has turned into a whole-slot alias writes nothing. */
  function OpsOfArg(keys: KeyMap, config: Config, arg: Value): seq<Op> {
    if !config.In? then OpsOfEntries(keys, config, EntriesOf(arg))
    else if config.key == "" then [Replace(Body, arg)]
    else if config.key in keys && keys[config.key].Mapped? then
      [Write(keys[config.key].slot, NameOf(keys[config.key].rename, config.key), arg)]
    else []
  }

  /** The configuration in force for an argument: its own, else the last one. */
  function ConfigAt(fields: seq<Config>, i: nat): Option<Config> {
    if fields == [] then None
    else Some(fields[if i < |fields| then i else |fields| - 1])
  }

  function OpsOf(keys: KeyMap, fields: seq<Config>, args: seq<Value>, n: nat): seq<Op>
    requires n <= |args|
  {
    if n == 0 then [] else OpsOf(keys, fields, args, n - 1) + OpsAt(keys, fields, args, n - 1)
  }

  function OpsAt(keys: KeyMap, fields: seq<Config>, args: seq<Value>, i: nat): seq<Op>
    requires i < |args|
  {
    var config := ConfigAt(fields, i);
    if config.Some? then OpsOfArg(keys, config.value, args[i]) else []
  }

  // ----- the slots -----

  /** A slot holds nothing, a record, or a value that cannot take fields. */
  datatype Content = Nothing | Record(fields: map<string, Value>, isArray: bool) | Fixed(value: Value)

  type Slots = map<Slot, Content>

  datatype Error = TypeError

  const FRESH: Slots :=
    map[Headers := Record(map[], false), Path := Record(map[], false), Query := Record(map[], false)]

  function FieldMap(fields: seq<(string, Value)>): map<string, Value> {
    if fields == [] then map[]
    else FieldMap(fields[..|fields| - 1])[fields[|fields| - 1].0 := fields[|fields| - 1].1]
  }

  function ContentOf(value: Value): Content {
    match value
    case Undefined => Nothing
    case Object(fields, isArray) => Record(FieldMap(fields), isArray)
    case _ => Fixed(value)
  }

  function At(slots: Slots, slot: Slot): Content {
    if slot in slots then slots[slot] else Nothing
  }

  /** `writeSlot`, or the assignment of a whole slot. */
  function Apply(slots: Slots, op: Op): Result<Slots, Error> {
    match op
    case Replace(slot, value) => Ok(slots[slot := ContentOf(value)])
    case Write(slot, key, value) =>
      match At(slots, slot)
      case Nothing => Ok(slots[slot := Record(map[key := value], false)])
      case Record(fields, isArray) => Ok(slots[slot := Record(fields[key := value], isArray)])
      case Fixed(_) => Err(TypeError)
  }

  function ApplyAll(slots: Slots, ops: seq<Op>): Result<Slots, Error> {
    if ops == [] then Ok(slots)
    else
      var before := ApplyAll(slots, ops[..|ops| - 1]);
      if before.Err? then before else Apply(before.value, ops[|ops| - 1])
  }

  predicate IsEmptyRecord(c: Content) {
    c.Record? && !c.isArray && c.fields == map[]
  }

  /** `stripEmptySlots` */
  function Strip(slots: Slots): Slots {
    map slot | slot in slots && (slot == Body || !IsEmptyRecord(slots[slot])) :: slots[slot]
  }

  const SLOTS: seq<Slot> := [Body, Headers, Path, Query]

  method StripEmptySlots(slots: Slots) returns (stripped: Slots)
    ensures stripped == Strip(slots)
  {
    stripped := slots;
    for i := 0 to |SLOTS|
      invariant stripped == map slot | slot in slots &&
                  (slot == Body || slot !in SLOTS[..i] || !IsEmptyRecord(slots[slot])) :: slots[slot]
    {
      var slot := SLOTS[i];
      assert SLOTS[..i + 1] == SLOTS[..i] + [slot];
      if slot != Body && slot in stripped && IsEmptyRecord(stripped[slot]) {
        stripped := stripped - {slot};
      }
    }
    forall slot: Slot ensures slot in SLOTS[..|SLOTS|] {
      assert SLOTS[0] == Body && SLOTS[1] == Headers && SLOTS[2] == Path && SLOTS[3] == Query;
      match slot case Body => case Headers => case Path => case Query =>
    }
  }

  lemma {:induction false} ApplyAppend(slots: Slots, a: seq<Op>, b: seq<Op>)
    ensures ApplyAll(slots, a + b) ==
            if ApplyAll(slots, a).Err? then ApplyAll(slots, a) else ApplyAll(ApplyAll(slots, a).value, b)
  {
    if b == [] {
      assert a + b == a;
    } else {
      ApplyAppend(slots, a, b[..|b| - 1]);
      assert (a + b)[..|a + b| - 1] == a + b[..|b| - 1];
    }
  }

  lemma OneMore(slots: Slots, ops: seq<Op>, op: Op)
    requires ApplyAll(slots, ops).Ok?
    ensures ApplyAll(slots, ops + [op]) == Apply(ApplyAll(slots, ops).value, op)
  {
    assert (ops + [op])[..|ops|] == ops;
  }

  lemma EntryOps(keys: KeyMap, config: Config, entries: seq<(string, Value)>, i: nat)
    requires i < |entries|
    ensures var op := Destination(keys, config, entries[i].0, entries[i].1);
            OpsOfEntries(keys, config, entries[..i + 1]) ==
            OpsOfEntries(keys, config, entries[..i]) + (if op.Some? then [op.value] else [])
  {
    assert entries[..i + 1][..i] == entries[..i];
  }

  lemma {:induction false} EntriesFail(keys: KeyMap, config: Config, entries: seq<(string, Value)>, i: nat,
                                       slots: Slots)
    requires i <= |entries| && ApplyAll(slots, OpsOfEntries(keys, config, entries[..i])).Err?
    ensures ApplyAll(slots, OpsOfEntries(keys, config, entries)) ==
            ApplyAll(slots, OpsOfEntries(keys, config, entries[..i]))
    decreases |entries| - i
  {
    if i == |entries| {
      assert entries[..i] == entries;
    } else {
      EntryOps(keys, config, entries, i);
      var op := Destination(keys, config, entries[i].0, entries[i].1);
      ApplyAppend(slots, OpsOfEntries(keys, config, entries[..i]), if op.Some? then [op.value] else []);
      EntriesFail(keys, config, entries, i + 1, slots);
    }
  }

  lemma {:induction false} ArgsFail(keys: KeyMap, fields: seq<Config>, args: seq<Value>, n: nat, slots: Slots)
    requires n <= |args| && ApplyAll(slots, OpsOf(keys, fields, args, n)).Err?
    ensures ApplyAll(slots, OpsOf(keys, fields, args, |args|)) == ApplyAll(slots, OpsOf(keys, fields, args, n))
    decreases |args| - n
  {
    if n < |args| {
      ApplyAppend(slots, OpsOf(keys, fields, args, n), OpsAt(keys, fields, args, n));
      ArgsFail(keys, fields, args, n + 1, slots);
    }
  }

  // ----- what the slots hold in the end -----

  /** What the last write to `key` of `slot`, after the slot's last replacement, left there. */
  function LastWrite(ops: seq<Op>, slot: Slot, key: string): Option<Value> {
    if ops == [] then None
    else
      var op := ops[|ops| - 1];
      if op.slot != slot then LastWrite(ops[..|ops| - 1], slot, key)
      else if op.Replace? then Field(ContentOf(op.value), key)
      else if op.key == key then Some(op.value)
      else LastWrite(ops[..|ops| - 1], slot, key)
  }

  function Field(c: Content, key: string): Option<Value> {
    if c.Record? && key in c.fields then Some(c.fields[key]) else None
  }

  /** Each slot entry is the last write to it after the slot's last replacement. */
  lemma {:induction false} EntryIsLastWrite(ops: seq<Op>, slot: Slot, key: string)
    requires ApplyAll(FRESH, ops).Ok?
    ensures Field(At(ApplyAll(FRESH, ops).value, slot), key) == LastWrite(ops, slot, key)
  {
    if ops != [] { EntryIsLastWrite(ops[..|ops| - 1], slot, key); }
  }

  /** The slot holds null or a primitive: its last replacement put it there. */
  predicate Blocked(ops: seq<Op>, slot: Slot) {
    if ops == [] then false
    else
      var op := ops[|ops| - 1];
      if op.slot == slot && op.Replace? then ContentOf(op.value).Fixed?
      else Blocked(ops[..|ops| - 1], slot)
  }

  lemma {:induction false} BlockedIsFixed(ops: seq<Op>, slot: Slot)
    requires ApplyAll(FRESH, ops).Ok?
    ensures At(ApplyAll(FRESH, ops).value, slot).Fixed? <==> Blocked(ops, slot)
  {
    if ops != [] { BlockedIsFixed(ops[..|ops| - 1], slot); }
  }

  /** Routing throws exactly when a field is written into a slot replaced by null or a primitive. */
  lemma {:induction false} ThrowsExactly(ops: seq<Op>)
    ensures ApplyAll(FRESH, ops).Err? <==>
            exists i :: 0 <= i < |ops| && ops[i].Write? && Blocked(ops[..i], ops[i].slot)
  {
    if ops != [] {
      var n := |ops| - 1;
      var init := ops[..n];
      ThrowsExactly(init);
      assert forall i :: 0 <= i < n ==> init[..i] == ops[..i] && init[i] == ops[i];
      if ApplyAll(FRESH, init).Ok? { BlockedIsFixed(init, ops[n].slot); }
      if ApplyAll(FRESH, init).Err? {
        var i :| 0 <= i < |init| && init[i].Write? && Blocked(init[..i], init[i].slot);
        assert ops[i].Write? && Blocked(ops[..i], ops[i].slot);
      }
    }
  }

  /** At most one prefix fits a key, so the order of the prefixes does not matter. */
  lemma PrefixesAreDisjoint(key: string, i: nat, j: nat)
    requires i < |PREFIXES| && j < |PREFIXES|
    requires PREFIXES[i].0 <= key && PREFIXES[j].0 <= key
    ensures i == j
  {
    assert key[1] == PREFIXES[i].0[1] && key[1] == PREFIXES[j].0[1];
  }

  /** Stripping keeps every entry and removes a slot exactly when it is an empty,
      non-array record other than the body. */
  lemma StripKeepsEntries(slots: Slots, slot: Slot, key: string)
    ensures Field(At(Strip(slots), slot), key) == Field(At(slots, slot), key)
    ensures slot in slots ==> (slot !in Strip(slots) <==> slot != Body && IsEmptyRecord(slots[slot]))
  {
  }

  // ----- the whole -----

  /** What routing the operations in order must give: an error exactly when a field is written
      into a slot replaced by null or a primitive, else slots in which every entry is the
      last write to it, without the empty ones. */
  ghost predicate IsBuilt(ops: seq<Op>, r: Result<Slots, Error>) {
    && (r.Err? <==> exists i :: 0 <= i < |ops| && ops[i].Write? && Blocked(ops[..i], ops[i].slot))
    && (r.Ok? ==> forall slot, key :: Field(At(r.value, slot), key) == LastWrite(ops, slot, key))
    && (r.Ok? ==> ApplyAll(FRESH, ops).Ok? && r.value == Strip(ApplyAll(FRESH, ops).value))
  }

  lemma RoutingThrows(ops: seq<Op>)
    requires ApplyAll(FRESH, ops).Err?
    ensures IsBuilt(ops, Err(TypeError))
  {
    ThrowsExactly(ops);
  }

  lemma RoutingEnds(ops: seq<Op>)
    requires ApplyAll(FRESH, ops).Ok?
    ensures IsBuilt(ops, Ok(Strip(ApplyAll(FRESH, ops).value)))
  {
    var params := ApplyAll(FRESH, ops).value;
    ThrowsExactly(ops);
    forall slot, key ensures Field(At(Strip(params), slot), key) == LastWrite(ops, slot, key) {
      EntryIsLastWrite(ops, slot, key);
      StripKeepsEntries(params, slot, key);
    }
  }
}
