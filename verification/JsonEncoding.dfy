/** The encoders, which append tokens to a buffer, and the trip back through the decoders. */
module JsonEncoding {
  import opened Text
  import opened JsonCodec
  import opened JsonMessages

  datatype Token =
    | ObjStart | ObjEnd | ArrStart | ArrEnd
    | FieldStart(name: string) | StrToken(text: string) | OtherToken

  /** How a value lies in the buffer. */
  function Tokens(json: Json): seq<Token>
    decreases json
  {
    match json
    case Str(text) => [StrToken(text)]
    case Arr(items) => [ArrStart] + ItemTokens(items) + [ArrEnd]
    case Obj(fields) => [ObjStart] + FieldTokens(fields) + [ObjEnd]
    case OtherJson => [OtherToken]
  }

  function ItemTokens(items: seq<Json>): seq<Token>
    decreases items
  {
    if items == [] then [] else Tokens(items[0]) + ItemTokens(items[1..])
  }

  function FieldTokens(fields: seq<(string, Json)>): seq<Token>
    decreases fields
  {
    if fields == [] then []
    else
      var field := fields[0];
      assert field.1 < field;
      [FieldStart(field.0)] + Tokens(field.1) + FieldTokens(fields[1..])
  }

  // ----- the buffer determines the value -----

  lemma ItemsHead(items: seq<Json>, rest: seq<Token>)
    ensures (ItemTokens(items) + ([ArrEnd] + rest))[0] == ArrEnd <==> items == []
  {
    if items == [] {
      assert ItemTokens(items) + ([ArrEnd] + rest) == [ArrEnd] + rest;
    } else {
      assert (ItemTokens(items) + ([ArrEnd] + rest))[0] == Tokens(items[0])[0];
    }
  }

  lemma Cancel<T>(head: seq<T>, a: seq<T>, b: seq<T>)
    requires head + a == head + b
    ensures a == b
  {
    assert a == (head + a)[|head|..] && b == (head + b)[|head|..];
  }

  /** A value's tokens end where the value ends: nothing else starts the same way. */
  lemma {:induction false} Unambiguous(a: Json, x: seq<Token>, b: Json, y: seq<Token>)
    requires Tokens(a) + x == Tokens(b) + y
    ensures a == b && x == y
    decreases a
  {
    assert (Tokens(a) + x)[0] == Tokens(a)[0] && (Tokens(b) + y)[0] == Tokens(b)[0];
    match a
    case Str(text) =>
      assert b == a;
      Cancel(Tokens(a), x, y);
    case OtherJson =>
      assert b == a;
      Cancel(Tokens(a), x, y);
    case Arr(items) =>
      assert b.Arr?;
      assert Tokens(a) + x == [ArrStart] + (ItemTokens(items) + ([ArrEnd] + x));
      assert Tokens(b) + y == [ArrStart] + (ItemTokens(b.items) + ([ArrEnd] + y));
      Cancel([ArrStart], ItemTokens(items) + ([ArrEnd] + x), ItemTokens(b.items) + ([ArrEnd] + y));
      UnambiguousItems(items, x, b.items, y);
    case Obj(fields) =>
      assert b.Obj?;
      assert Tokens(a) + x == [ObjStart] + (FieldTokens(fields) + ([ObjEnd] + x));
      assert Tokens(b) + y == [ObjStart] + (FieldTokens(b.fields) + ([ObjEnd] + y));
      Cancel([ObjStart], FieldTokens(fields) + ([ObjEnd] + x), FieldTokens(b.fields) + ([ObjEnd] + y));
      UnambiguousFields(fields, x, b.fields, y);
  }

  /** The tokens of the first item, and those behind it. */
  lemma FirstItem(items: seq<Json>, rest: seq<Token>)
    requires items != []
    ensures ItemTokens(items) + ([ArrEnd] + rest) == Tokens(items[0]) + (ItemTokens(items[1..]) + ([ArrEnd] + rest))
  {
    Assoc(Tokens(items[0]), ItemTokens(items[1..]), [ArrEnd] + rest);
  }

  lemma NoItems(rest: seq<Token>)
    ensures ItemTokens([]) + ([ArrEnd] + rest) == [ArrEnd] + rest
  {
  }

  lemma {:induction false} UnambiguousItems(a: seq<Json>, x: seq<Token>, b: seq<Json>, y: seq<Token>)
    requires ItemTokens(a) + ([ArrEnd] + x) == ItemTokens(b) + ([ArrEnd] + y)
    ensures a == b && x == y
    decreases a
  {
    ItemsHead(a, x);
    ItemsHead(b, y);
    if a == [] {
      NoItems(x);
      NoItems(y);
      Cancel([ArrEnd], x, y);
    } else {
      FirstItem(a, x);
      FirstItem(b, y);
      Unambiguous(a[0], ItemTokens(a[1..]) + ([ArrEnd] + x), b[0], ItemTokens(b[1..]) + ([ArrEnd] + y));
      UnambiguousItems(a[1..], x, b[1..], y);
      assert a == [a[0]] + a[1..] && b == [b[0]] + b[1..];
    }
  }

  lemma {:induction false} UnambiguousFields(a: seq<(string, Json)>, x: seq<Token>,
                                             b: seq<(string, Json)>, y: seq<Token>)
    requires FieldTokens(a) + ([ObjEnd] + x) == FieldTokens(b) + ([ObjEnd] + y)
    ensures a == b && x == y
    decreases a
  {
    var left, right := FieldTokens(a) + ([ObjEnd] + x), FieldTokens(b) + ([ObjEnd] + y);
    assert left[0] == if a == [] then ObjEnd else FieldStart(a[0].0);
    assert right[0] == if b == [] then ObjEnd else FieldStart(b[0].0);
    if a == [] {
      assert left == [ObjEnd] + x && right == [ObjEnd] + y;
      Cancel([ObjEnd], x, y);
    } else {
      assert b != [];
      var restA, restB := FieldTokens(a[1..]) + ([ObjEnd] + x), FieldTokens(b[1..]) + ([ObjEnd] + y);
      assert left == [FieldStart(a[0].0)] + (Tokens(a[0].1) + restA);
      assert right == [FieldStart(b[0].0)] + (Tokens(b[0].1) + restB);
      Cancel([FieldStart(a[0].0)], Tokens(a[0].1) + restA, Tokens(b[0].1) + restB);
      var field := a[0];
      assert field.1 < field;
      Unambiguous(field.1, restA, b[0].1, restB);
      UnambiguousFields(a[1..], x, b[1..], y);
      assert a == [a[0]] + a[1..] && b == [b[0]] + b[1..];
    }
  }

  // ----- encoding -----

  function DetailJson(s: Detail): Json {
    Obj([("pointer", Str(s.pointer)), ("code", Str(s.code)), ("message", Str(s.message))])
  }

  function DetailsJson(details: seq<Detail>): seq<Json> {
    seq(|details|, k requires 0 <= k < |details| => DetailJson(details[k]))
  }

  /** Nil details are left out; empty ones are an empty array. */
  function ErrorJson(s: ErrorBody): Json {
    Obj([("code", Str(s.code)), ("message", Str(s.message)), ("requestId", Str(s.requestId))] +
        if s.details.Some? then [("details", Arr(DetailsJson(s.details.value)))] else [])
  }

  function EnvelopeJson(s: Envelope): Json {
    Obj([("error", ErrorJson(s.error))])
  }

  function OrganizationJson<I, T>(ids: Codec<I>, times: Codec<T>, s: Organization<I, T>): Json {
    Obj([("id", ids.encode(s.id)), ("name", Str(s.name)), ("status", Str(s.status)),
         ("createdAt", times.encode(s.createdAt)), ("updatedAt", times.encode(s.updatedAt))])
  }

  lemma {:induction false} ItemTokensAppend(a: seq<Json>, item: Json)
    ensures ItemTokens(a + [item]) == ItemTokens(a) + Tokens(item)
  {
    var none: seq<Json> := [];
    if a == [] {
      assert a + [item] == [item] && [item][1..] == none;
    } else {
      ItemTokensAppend(a[1..], item);
      assert (a + [item])[1..] == a[1..] + [item];
    }
  }

  lemma {:induction false} FieldTokensAppend(a: seq<(string, Json)>, name: string, value: Json)
    ensures FieldTokens(a + [(name, value)]) == FieldTokens(a) + ([FieldStart(name)] + Tokens(value))
  {
    var last := [(name, value)];
    var own := [FieldStart(name)] + Tokens(value);
    if a == [] {
      assert a + last == last;
      assert FieldTokens(last[1..]) == [];
      assert FieldTokens(last) == own;
    } else {
      FieldTokensAppend(a[1..], name, value);
      assert (a + last)[1..] == a[1..] + last && (a + last)[0] == a[0];
      var first := [FieldStart(a[0].0)] + Tokens(a[0].1);
      assert FieldTokens(a) == first + FieldTokens(a[1..]);
      assert FieldTokens(a + last) == first + FieldTokens(a[1..] + last);
      Assoc(first, FieldTokens(a[1..]), own);
    }
  }

  /** The tokens of an object that is still open. */
  ghost function Opened(base: seq<Token>, fields: seq<(string, Json)>): seq<Token> {
    base + ([ObjStart] + FieldTokens(fields))
  }

  lemma ObjectOpened(base: seq<Token>, fields: seq<(string, Json)>)
    ensures base + [ObjStart] == Opened(base, fields[..0])
  {
    assert FieldTokens(fields[..0]) == [];
    assert [ObjStart] + FieldTokens(fields[..0]) == [ObjStart];
  }

  lemma FieldWritten(base: seq<Token>, fields: seq<(string, Json)>, n: nat)
    requires n < |fields|
    ensures Opened(base, fields[..n]) + [FieldStart(fields[n].0)] + Tokens(fields[n].1) == Opened(base, fields[..n + 1])
  {
    var own := [FieldStart(fields[n].0)] + Tokens(fields[n].1);
    assert fields[..n + 1] == fields[..n] + [(fields[n].0, fields[n].1)];
    FieldTokensAppend(fields[..n], fields[n].0, fields[n].1);
    Assoc([ObjStart], FieldTokens(fields[..n]), own);
    Assoc(base, [ObjStart] + FieldTokens(fields[..n]), own);
    Assoc(Opened(base, fields[..n]), [FieldStart(fields[n].0)], Tokens(fields[n].1));
  }

  lemma ObjectClosed(base: seq<Token>, fields: seq<(string, Json)>)
    ensures Opened(base, fields[..|fields|]) + [ObjEnd] == base + Tokens(Obj(fields))
  {
    assert fields[..|fields|] == fields;
    Assoc(base, [ObjStart] + FieldTokens(fields), [ObjEnd]);
  }

  /** The encoder's buffer. */
  class Encoder {
    var buffer: seq<Token>

    constructor ()
      ensures buffer == []
    {
      buffer := [];
    }

    method Put(token: Token)
      modifies this
      ensures buffer == old(buffer) + [token]
    {
      buffer := buffer + [token];
    }

    method ObjStart(ghost fields: seq<(string, Json)>)
      modifies this
      ensures buffer == Opened(old(buffer), fields[..0])
    {
      ObjectOpened(buffer, fields);
      Put(Token.ObjStart);
    }

    method ObjEnd(ghost base: seq<Token>, ghost fields: seq<(string, Json)>)
      requires buffer == Opened(base, fields[..|fields|])
      modifies this
      ensures buffer == base + Tokens(Obj(fields))
    {
      ObjectClosed(base, fields);
      Put(Token.ObjEnd);
    }

    /** `FieldStart`, then `Str` */
    method StrField(name: string, text: string, ghost base: seq<Token>, ghost fields: seq<(string, Json)>, ghost n: nat)
      requires n < |fields| && fields[n] == (name, Str(text)) && buffer == Opened(base, fields[..n])
      modifies this
      ensures buffer == Opened(base, fields[..n + 1])
    {
      FieldWritten(base, fields, n);
      Put(FieldStart(name));
      Put(StrToken(text));
    }

    /** `ErrorDetail.Encode` */
    method EncodeDetail(s: Detail)
      modifies this
      ensures buffer == old(buffer) + Tokens(DetailJson(s))
    {
      ghost var base, fields := buffer, DetailJson(s).fields;
      ObjStart(fields);
      StrField("pointer", s.pointer, base, fields, 0);
      StrField("code", s.code, base, fields, 1);
      StrField("message", s.message, base, fields, 2);
      ObjEnd(base, fields);
    }

    /** The array of details. */
    method EncodeDetails(details: seq<Detail>)
      modifies this
      ensures buffer == old(buffer) + Tokens(Arr(DetailsJson(details)))
    {
      ghost var base := buffer + [ArrStart];
      Put(ArrStart);
      for i := 0 to |details|
        invariant buffer == base + ItemTokens(DetailsJson(details[..i]))
      {
        EncodeDetail(details[i]);
        DetailWritten(base, details[..i], details[i]);
        assert details[..i] + [details[i]] == details[..i + 1];
      }
      assert details[..|details|] == details;
      Put(ArrEnd);
    }

    /** `Error.Encode` */
    method EncodeError(s: ErrorBody)
      modifies this
      ensures buffer == old(buffer) + Tokens(ErrorJson(s))
    {
      ghost var base, fields := buffer, ErrorJson(s).fields;
      ObjStart(fields);
      StrField("code", s.code, base, fields, 0);
      StrField("message", s.message, base, fields, 1);
      StrField("requestId", s.requestId, base, fields, 2);
      if s.details.Some? {
        FieldWritten(base, fields, 3);
        Put(FieldStart("details"));
        EncodeDetails(s.details.value);
      }
      ObjEnd(base, fields);
    }

    /** `ErrorEnvelope.Encode` */
    method EncodeEnvelope(s: Envelope)
      modifies this
      ensures buffer == old(buffer) + Tokens(EnvelopeJson(s))
    {
      ghost var base, fields := buffer, EnvelopeJson(s).fields;
      ObjStart(fields);
      FieldWritten(base, fields, 0);
      Put(FieldStart("error"));
      EncodeError(s.error);
      ObjEnd(base, fields);
    }

    /** `FieldStart`, then the leaf encoder */
    method LeafField(name: string, leaf: Json, ghost base: seq<Token>, ghost fields: seq<(string, Json)>, ghost n: nat)
      requires n < |fields| && fields[n] == (name, leaf) && buffer == Opened(base, fields[..n])
      modifies this
      ensures buffer == Opened(base, fields[..n + 1])
    {
      FieldWritten(base, fields, n);
      Put(FieldStart(name));
      buffer := buffer + Tokens(leaf);
    }

    /** `Organization.Encode` */
    method EncodeOrganization<I, T>(ids: Codec<I>, times: Codec<T>, s: Organization<I, T>)
      modifies this
      ensures buffer == old(buffer) + Tokens(OrganizationJson(ids, times, s))
    {
      ghost var base, fields := buffer, OrganizationJson(ids, times, s).fields;
      ObjStart(fields);
      LeafField("id", ids.encode(s.id), base, fields, 0);
      StrField("name", s.name, base, fields, 1);
      StrField("status", s.status, base, fields, 2);
      LeafField("createdAt", times.encode(s.createdAt), base, fields, 3);
      LeafField("updatedAt", times.encode(s.updatedAt), base, fields, 4);
      ObjEnd(base, fields);
    }
  }

  lemma DetailWritten(base: seq<Token>, details: seq<Detail>, next: Detail)
    ensures base + ItemTokens(DetailsJson(details)) + Tokens(DetailJson(next)) ==
            base + ItemTokens(DetailsJson(details + [next]))
  {
    assert DetailsJson(details + [next]) == DetailsJson(details) + [DetailJson(next)];
    ItemTokensAppend(DetailsJson(details), DetailJson(next));
    Assoc(base, ItemTokens(DetailsJson(details)), Tokens(DetailJson(next)));
  }
}
