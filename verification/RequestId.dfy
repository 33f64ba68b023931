/** The request id, from the incoming header to the response header and the error body. */
module RequestId {
  import opened Wrappers
  import opened Text
  import opened JsonCodec
  import opened JsonMessages
  import opened JsonEncoding
  import JsonRoundTrip
  import Percent

  // ----- validation -----

  predicate IsUpper(c: char) { 'A' <= c <= 'Z' }

  predicate IsIdChar(c: char) { Percent.IsAlphanumeric(c) || c == '.' || c == '_' || c == ':' || c == '-' }

  /** `^[A-Za-z0-9][A-Za-z0-9._:-]{0,127}$` */
  predicate MatchesIdPattern(s: string) {
    s != "" && Percent.IsAlphanumeric(s[0]) && |s| - 1 <= 127 && forall i :: 1 <= i < |s| ==> IsIdChar(s[i])
  }

  /** `^[A-Z][A-Z0-9_]*$` */
  predicate MatchesCodePattern(s: string) {
    s != "" && IsUpper(s[0]) && forall i :: 1 <= i < |s| ==> IsUpper(s[i]) || IsDigit(s[i]) || s[i] == '_'
  }

  predicate LengthWithin(s: string, most: nat) { 1 <= |s| <= most }

  predicate ValidId(s: string) { LengthWithin(s, 128) && MatchesIdPattern(s) }

  predicate ValidCode(s: string) { LengthWithin(s, 96) && MatchesCodePattern(s) }

  predicate ValidMessage(s: string) { LengthWithin(s, 512) }

  predicate ValidDetail(d: Detail) {
    LengthWithin(d.pointer, 256) && ValidCode(d.code) && ValidMessage(d.message)
  }

  predicate ValidDetails(details: seq<Detail>) {
    |details| <= 20 && forall i :: 0 <= i < |details| ==> ValidDetail(details[i])
  }

  /** The text form of a UUID (section 4 of RFC 9562), as the generator prints it. */
  predicate IsUuid(s: string) {
    |s| == 36 && forall i :: 0 <= i < 36 ==>
                               if i == 8 || i == 13 || i == 18 || i == 23 then s[i] == '-'
                               else IsDigit(s[i]) || 'a' <= s[i] <= 'f'
  }

  // ----- the patterns, letter by letter, and the bounds -----

  const UPPER := "ABCDEFGHIJKLMNOPQRSTUVWXYZ"
  const LOWER := "abcdefghijklmnopqrstuvwxyz"
  const DIGITS := "0123456789"

  lemma LettersAre(c: char)
    ensures IsUpper(c) <==> c in UPPER
    ensures 'a' <= c <= 'z' <==> c in LOWER
    ensures IsDigit(c) <==> c in DIGITS
  {
    assert forall i :: 0 <= i < 26 ==> UPPER[i] as int == 65 + i && LOWER[i] as int == 97 + i;
    assert forall i :: 0 <= i < 10 ==> DIGITS[i] as int == 48 + i;
    if IsUpper(c) { assert UPPER[c as int - 65] == c; }
    if 'a' <= c <= 'z' { assert LOWER[c as int - 97] == c; }
    if IsDigit(c) { assert DIGITS[c as int - 48] == c; }
  }

  /** The text is one character of the first class, followed by up to `most` of the second. */
  predicate IsOneAndMore(s: string, first: string, others: string, most: nat) {
    && 1 <= |s| <= 1 + most && s[0] in first
    && forall i :: 1 <= i < |s| ==> s[i] in others
  }

  lemma IdPatternExactly(s: string)
    ensures MatchesIdPattern(s) <==> IsOneAndMore(s, UPPER + LOWER + DIGITS, UPPER + LOWER + DIGITS + "._:-", 127)
  {
    forall c ensures Percent.IsAlphanumeric(c) <==> c in UPPER + LOWER + DIGITS { LettersAre(c); }
    forall c ensures IsIdChar(c) <==> c in UPPER + LOWER + DIGITS + "._:-" {
      assert c in "._:-" <==> c == '.' || c == '_' || c == ':' || c == '-';
    }
  }

  lemma CodePatternExactly(s: string)
    ensures MatchesCodePattern(s) <==> IsOneAndMore(s, UPPER, UPPER + DIGITS + "_", |s|)
  {
    forall c ensures IsUpper(c) <==> c in UPPER { LettersAre(c); }
    forall c ensures IsUpper(c) || IsDigit(c) || c == '_' <==> c in UPPER + DIGITS + "_" {
      LettersAre(c);
      assert c in "_" <==> c == '_';
    }
  }

  function Repeated<T>(x: T, n: nat): seq<T> {
    seq(n, _ => x)
  }

  /** How long a text may be, and how many details there may be. */
  lemma BoundsExactly(n: nat)
    ensures ValidId(Repeated('A', n)) <==> 1 <= n <= 128
    ensures ValidCode(Repeated('A', n)) <==> 1 <= n <= 96
    ensures ValidMessage(Repeated('A', n)) <==> 1 <= n <= 512
    ensures ValidDetail(Detail(Repeated('A', n), "A", "A")) <==> 1 <= n <= 256
    ensures ValidDetails(Repeated(Detail("A", "A", "A"), n)) <==> n <= 20
  {
    var s := Repeated('A', n);
    assert forall i :: 0 <= i < n ==> IsUpper(s[i]);
    assert ValidDetail(Detail("A", "A", "A"));
    assert ValidDetail(Detail(s, "A", "A")) <==> LengthWithin(s, 256);
  }

  /** A detail is valid exactly when all its parts are, and details when each of them is. */
  lemma PartsExactly(d: Detail, details: seq<Detail>)
    ensures ValidDetail(d) <==>
            ValidDetail(Detail(d.pointer, "A", "A")) && ValidDetail(Detail("A", d.code, "A")) &&
            ValidDetail(Detail("A", "A", d.message))
    ensures ValidDetail(Detail("A", d.code, "A")) <==> ValidCode(d.code)
    ensures ValidDetail(Detail("A", "A", d.message)) <==> ValidMessage(d.message)
    ensures ValidDetails(details) && ValidDetail(d) && |details| < 20 <==> ValidDetails(details + [d])
  {
    assert ValidCode("A");
    assert (details + [d])[|details|] == d;
    assert forall i :: 0 <= i < |details| ==> (details + [d])[i] == details[i];
  }

  lemma SampleUuid()
    ensures IsUuid("f81d4fae-7dec-41d0-a765-00a0c91e6bf6")
  {
  }

  lemma UuidIsValid(s: string)
    requires IsUuid(s)
    ensures ValidId(s)
  {
    assert Percent.IsAlphanumeric(s[0]);
  }

  /** The fields of an error that break the contract, in the order they are checked. */
  method ValidateError(e: ErrorBody) returns (failures: seq<string>)
    ensures failures == [] <==>
            && ValidCode(e.code) && ValidMessage(e.message) && ValidId(e.requestId)
            && (e.details.None? || ValidDetails(e.details.value))
    ensures "code" in failures <==> !ValidCode(e.code)
    ensures "message" in failures <==> !ValidMessage(e.message)
    ensures "requestId" in failures <==> !ValidId(e.requestId)
    ensures "details" in failures <==> e.details.Some? && !ValidDetails(e.details.value)
  {
    failures := [];
    if !ValidCode(e.code) { failures := failures + ["code"]; }
    if !ValidMessage(e.message) { failures := failures + ["message"]; }
    if !ValidId(e.requestId) { failures := failures + ["requestId"]; }
    if e.details.Some? {
      var valid := ValidateDetails(e.details.value);
      if !valid { failures := failures + ["details"]; }
    }
  }

  method ValidateDetails(details: seq<Detail>) returns (valid: bool)
    ensures valid <==> ValidDetails(details)
  {
    if |details| > 20 { return false; }
    var failed: seq<nat> := [];
    for i := 0 to |details|
      invariant failed == [] <==> forall k :: 0 <= k < i ==> ValidDetail(details[k])
    {
      if !ValidDetail(details[i]) { failed := failed + [i]; }
    }
    return failed == [];
  }

  // ----- one exchange -----

  datatype Response =
    | BadParameter
    | Healthy(xRequestID: string)
    | Unavailable(xRequestID: string, body: Envelope)

  /** `Header.Get` */
  function First(values: seq<string>): string {
    if values == [] then "" else values[0]
  }

  /** The header the handlers see. */
  function Forwarded(incoming: seq<string>, minted: string): seq<string> {
    if ValidId(First(incoming)) then incoming else [minted]
  }

  /** The decoded parameter: None when the header is absent. The library decides what
      several values decode to. */
  function DecodedParam(values: seq<string>, several: Option<string>): Result<Option<string>, string> {
    if values == [] then Ok(None)
    else
      var value := if |values| == 1 then Some(values[0]) else several;
      if value.None? then Err("X-Request-ID")
      else if ValidId(value.value) then Ok(value) else Err("X-Request-ID")
  }

  const UNAVAILABLE := "SERVICE_UNAVAILABLE"

  const UNAVAILABLE_MESSAGE := "The service is temporarily unavailable."

  function Unready(id: string): Response {
    Unavailable(id, Envelope(ErrorBody(UNAVAILABLE, UNAVAILABLE_MESSAGE, id, None)))
  }

  /** One exchange's headers called `X-Request-ID`. */
  class Exchange {
    var request: seq<string>
    var response: Option<string>

    constructor (values: seq<string>)
      ensures request == values && response == None
    {
      request := values;
      response := None;
    }

    /** `withRequestID`, up to the next handler. `minted` is what the generator returns. */
    method WithRequestID(minted: string)
      modifies this
      ensures request == Forwarded(old(request), minted)
      ensures response == Some(First(request))
    {
      var requestID := First(request);
      if !ValidId(requestID) {
        requestID := minted;
        request := [requestID];
      }
      response := Some(requestID);
    }

    /** `decodeGetReadinessParams`: the parameter is absent exactly when the header is; what it
        yields is always valid; one value is yielded exactly when it is valid, and several
        exactly when the library makes a valid one of them. A failure names the parameter. */
    method DecodeParams(several: Option<string>) returns (r: Result<Option<string>, string>)
      ensures r == Ok(None) <==> request == []
      ensures r.Ok? && r.value.Some? ==> ValidId(r.value.value)
      ensures |request| == 1 ==> (r == Ok(Some(request[0])) <==> ValidId(request[0]))
      ensures |request| > 1 && several.Some? ==> (r == Ok(several) <==> ValidId(several.value))
      ensures |request| > 1 && several.None? ==> r.Err?
      ensures |request| == 1 && r.Ok? ==> r.value == Some(request[0])
      ensures |request| > 1 && r.Ok? ==> r.value == several
      ensures r.Err? ==> r.error == "X-Request-ID"
    {
      var xRequestID: Option<string> := None;
      if request != [] {
        var value := if |request| == 1 then Some(request[0]) else several;
        if value.None? {
          return Err("X-Request-ID");
        }
        xRequestID := value;
        if !ValidId(xRequestID.value) {
          return Err("X-Request-ID");
        }
      }
      return Ok(xRequestID);
    }

    /** `requestID` */
    method RequestID(param: Option<string>, fallback: string) returns (id: string)
      ensures id == if param.Some? then param.value else fallback
    {
      if param.Some? {
        return param.value;
      }
      return fallback;
    }

    /** The readiness endpoint behind the middleware. */
    method ServeReadiness(ready: bool, minted: string, fallback: string, several: Option<string>) returns (r: Response)
      modifies this
      ensures r == Answered(old(request), ready, minted, fallback, several)
      ensures response == Some(if r.BadParameter? then First(Forwarded(old(request), minted)) else r.xRequestID)
    {
      WithRequestID(minted);
      var params := DecodeParams(several);
      if params.Err? {
        return BadParameter;
      }
      var id := RequestID(params.value, fallback);
      if ready {
        r := Healthy(id);
      } else {
        r := Unready(id);
      }
      response := Some(r.xRequestID);
    }
  }

  function Answered(incoming: seq<string>, ready: bool, minted: string, fallback: string, several: Option<string>)
    : Response
  {
    var param := DecodedParam(Forwarded(incoming, minted), several);
    if param.Err? then BadParameter
    else
      var id := if param.value.Some? then param.value.value else fallback;
      if ready then Healthy(id) else Unready(id)
  }

  /** For a header with at most one value, or with an invalid first value, decoding the
      parameter never fails; the effective id is valid and is the caller's whenever that is
      valid; the response header carries it, and so does the error body. */
  lemma RequestIdAgrees(incoming: seq<string>, ready: bool, minted: string, fallback: string, several: Option<string>)
    requires IsUuid(minted)
    requires |incoming| <= 1 || !ValidId(incoming[0])
    ensures var r := Answered(incoming, ready, minted, fallback, several);
            var id := if ValidId(First(incoming)) then First(incoming) else minted;
            && r == (if ready then Healthy(id) else Unready(id))
            && ValidId(id) && MatchesIdPattern(id) && 1 <= |id| <= 128
            && (r.Unavailable? ==> r.body.error.requestId == r.xRequestID)
  {
    UuidIsValid(minted);
  }

  /** The condition is needed: with more values behind a valid first one, the library's
      reading of several values decides. */
  lemma SeveralValuesDecide(incoming: seq<string>, ready: bool, minted: string, fallback: string,
                            several: Option<string>)
    requires |incoming| > 1 && ValidId(incoming[0])
    ensures Answered(incoming, ready, minted, fallback, several).BadParameter? <==>
            several.None? || !ValidId(several.value)
  {
  }

  lemma CodeIsValid()
    ensures ValidCode(UNAVAILABLE) && ValidMessage(UNAVAILABLE_MESSAGE)
  {
    assert |UNAVAILABLE_MESSAGE| == 39;
  }

  /** The body of the unavailable answer keeps the contract it is checked against, and a
      client that reads what was written gets it back whole. */
  lemma UnavailableIsReadable(id: string, read: Json)
    requires ValidId(id) && Tokens(read) == Tokens(EnvelopeJson(Unready(id).body))
    ensures var error := Unready(id).body.error;
            && ValidCode(error.code) && ValidMessage(error.message) && ValidId(error.requestId) && error.details.None?
            && DecodeEnvelope(Envelope(NO_ERROR), read) == Ok(Envelope(error))
  {
    CodeIsValid();
    JsonRoundTrip.WireRoundTrip(Unready(id).body, read);
  }
}
