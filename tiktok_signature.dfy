/** The TikTok webhook signature check of
    netlify/functions/utils/tiktok-signature.js: `verifyTikTokSignature`, as an
    imperative method proved against the function `Verification`, and the
    `withTikTokVerification` wrapper that turns the verdict into an HTTP response.

    HMAC-SHA256 (section 2 of RFC 2104) is not implemented: the method takes it
    as the parameter `hmac`, a function from the key and the message text to the
    digest bytes. The clock is the parameter `nowMillis`, the value `Date.now()`
    would return. */
module TikTokSignature {
  import opened Wrappers
  import opened JsString
  import JsNumber
  import Utf8
  import Hex

  type Byte = Utf8.Byte

  /** HMAC-SHA256 keyed by the first argument over the UTF-8 bytes of the second. */
  type Hmac = (string, string) -> seq<Byte>

  /** The tolerance in seconds the wrapper uses (the parameter's default). */
  const DefaultToleranceSeconds: int := 300

  /** The exceptions the body of the check can raise; its `catch` turns each into
      a failed verdict. */
  datatype Exception =
    | HeaderNotString          // `signatureHeader.split` on an `undefined` header (None)
    | BufferArgumentNotString  // `Buffer.from(undefined)`: an `s` element without `=`
    | ByteLengthMismatch       // `timingSafeEqual` on buffers of different lengths

  datatype Failure =
    | MissingTimestamp
    | MissingSignature
    | SignatureMismatch
    | TimestampTooOld(difference: int, tolerance: int)
    | VerificationError(cause: Exception)

  /** The `{ valid, error }` object the check returns. */
  datatype Verdict = Verdict(valid: bool, error: Option<Failure>)

  const Valid := Verdict(true, None)

  function Invalid(f: Failure): Verdict {
    Verdict(false, Some(f))
  }

  /** The message V8 and Node attach to each exception. */
  function ExceptionMessage(e: Exception): string {
    match e
    case HeaderNotString => "Cannot read properties of undefined (reading 'split')"
    case BufferArgumentNotString =>
      "The first argument must be of type string or an instance of Buffer, ArrayBuffer, "
      + "or Array or an Array-like Object. Received undefined"
    case ByteLengthMismatch => "Input buffers must have the same byte length"
  }

  /** The text of the verdict's `error` field. */
  function ErrorText(f: Failure): string {
    match f
    case MissingTimestamp => "Missing timestamp in signature header"
    case MissingSignature => "Missing signature in header"
    case SignatureMismatch => "Signature verification failed"
    case TimestampTooOld(d, t) =>
      "Webhook timestamp too old. Difference: " + JsNumber.IntToDecimal(d)
      + "s, Tolerance: " + JsNumber.IntToDecimal(t) + "s"
    case VerificationError(e) => "Verification error: " + ExceptionMessage(e)
  }

  /* ---------------------------------------------------------------------------
     Step 1: the header `t=...,s=...[,s=...]`
     ------------------------------------------------------------------------- */

  /** `const [prefix, value] = element.split('=')`: the text before the first `=`
      and the text between the first and the second `=`, `undefined` (None) when
      the element holds no `=`. */
  datatype Field = Field(prefix: string, value: Option<string>)

  function ParseElement(element: string): Field {
    var parts := Split(element, '=');
    Field(parts[0], if |parts| > 1 then Some(parts[1]) else None)
  }

  /** The timestamp the loop ends with: the value of the last `t` element, since
      each one overwrites it; None for `null` (no `t` element) and also for
      `undefined` (a last `t` element without `=`). */
  function TimestampOf(elements: seq<string>): (t: Option<string>)
    ensures t.Some? ==> elements != [] && '=' !in t.value
  {
    if elements == [] then None
    else
      var last := ParseElement(elements[|elements| - 1]);
      if last.prefix == "t" then last.value else TimestampOf(elements[..|elements| - 1])
  }

  /** The signatures the loop pushes: the value of every `s` element, in order. */
  function SignaturesOf(elements: seq<string>): (signatures: seq<Option<string>>)
    ensures |signatures| <= |elements|
  {
    if elements == [] then []
    else
      var last := ParseElement(elements[|elements| - 1]);
      SignaturesOf(elements[..|elements| - 1]) + (if last.prefix == "s" then [last.value] else [])
  }

  /* ---------------------------------------------------------------------------
     Steps 2 and 3: the expected signature and the candidate loop
     ------------------------------------------------------------------------- */

  /** `${timestamp}.${rawBody}` */
  function SignedPayload(timestamp: string, rawBody: string): string {
    timestamp + "." + rawBody
  }

  /** `createHmac('sha256', secret).update(payload).digest('hex')` */
  function ExpectedSignature(clientSecret: string, timestamp: string, rawBody: string, hmac: Hmac): string {
    Hex.Encode(hmac(clientSecret, SignedPayload(timestamp, rawBody)))
  }

  /** `crypto.timingSafeEqual`, whose callers must pass buffers of equal length.
      Only its result is modelled, not its timing. */
  function TimingSafeEqual(a: seq<Byte>, b: seq<Byte>): bool
    requires |a| == |b|
  {
    a == b
  }

  /** How the candidate loop ends. */
  datatype CompareOutcome = Matched | NoMatch | Threw(exception: Exception)

  /** A candidate reaches `timingSafeEqual` without raising: it is a string and
      its UTF-8 bytes are as many as those of the expected text. */
  predicate Comparable(candidate: Option<string>, expected: string) {
    candidate.Some? && |Utf8.Encode(candidate.value)| == |Utf8.Encode(expected)|
  }

  /** The candidate loop, front to back: the UTF-8 bytes of each candidate text
      (not its hex decoding) are compared with those of the expected text. */
  function Compare(candidates: seq<Option<string>>, expected: string): (r: CompareOutcome)
    ensures r == Matched ==> Some(expected) in candidates
    ensures r.Threw? ==> exists c :: c in candidates && !Comparable(c, expected)
  {
    if candidates == [] then NoMatch
    else match candidates[0]
      case None => assert candidates[0] in candidates; Threw(BufferArgumentNotString)
      case Some(c) =>
        var a, b := Utf8.Encode(c), Utf8.Encode(expected);
        if |a| != |b| then assert candidates[0] in candidates; Threw(ByteLengthMismatch)
        else if TimingSafeEqual(a, b) then Utf8.EncodeInjective(c, expected); Matched
        else Compare(candidates[1..], expected)
  }

  /* ---------------------------------------------------------------------------
     Step 4 and the whole check
     ------------------------------------------------------------------------- */

  function Abs(x: int): nat {
    if x < 0 then -x else x
  }

  /** The freshness test after a match. `parseInt` of a text without leading
      digits is NaN, and `NaN > tolerance` is false: such a timestamp passes. */
  function Freshness(timestamp: string, nowMillis: int, toleranceSeconds: int): (r: Verdict)
    ensures r.valid <==> r.error.None?
    ensures JsNumber.ParseInt(timestamp).None? ==> r.valid
    ensures !r.valid ==> r.error.value.TimestampTooOld? && r.error.value.difference > toleranceSeconds
  {
    var currentTimestamp := nowMillis / 1000;
    match JsNumber.ParseInt(timestamp)
    case None => Valid
    case Some(webhookTimestamp) =>
      var timeDifference := Abs(currentTimestamp - webhookTimestamp);
      if timeDifference > toleranceSeconds then Invalid(TimestampTooOld(timeDifference, toleranceSeconds))
      else Valid
  }

  /** What `verifyTikTokSignature` returns. */
  function Verification(signatureHeader: Option<string>, rawBody: string, clientSecret: string,
                        toleranceSeconds: int, nowMillis: int, hmac: Hmac): (r: Verdict)
    ensures r.valid <==> r.error.None?
  {
    match signatureHeader
    case None => Invalid(VerificationError(HeaderNotString))
    case Some(header) =>
      var elements := Split(header, ',');
      var timestamp, signatures := TimestampOf(elements), SignaturesOf(elements);
      if !Truthy(timestamp) then Invalid(MissingTimestamp)
      else if |signatures| == 0 then Invalid(MissingSignature)
      else
        var expected := ExpectedSignature(clientSecret, timestamp.value, rawBody, hmac);
        match Compare(signatures, expected)
        case Threw(e) => Invalid(VerificationError(e))
        case NoMatch => Invalid(SignatureMismatch)
        case Matched => Freshness(timestamp.value, nowMillis, toleranceSeconds)
  }

  /** The loop over the comma-separated elements of the header. */
  method ParseSignatureHeader(header: string) returns (timestamp: Option<string>, signatures: seq<Option<string>>)
    ensures timestamp == TimestampOf(Split(header, ','))
    ensures signatures == SignaturesOf(Split(header, ','))
  {
    var elements := Split(header, ',');
    timestamp := None;
    signatures := [];
    for i := 0 to |elements|
      invariant timestamp == TimestampOf(elements[..i])
      invariant signatures == SignaturesOf(elements[..i])
    {
      assert elements[..i + 1][..i] == elements[..i];
      var field := ParseElement(elements[i]);
      if field.prefix == "t" {
        timestamp := field.value;
      } else if field.prefix == "s" {
        signatures := signatures + [field.value];
      }
    }
    assert elements[..|elements|] == elements;
  }

  /** The loop over the candidates, which stops at the first match or exception. */
  method CompareCandidates(signatures: seq<Option<string>>, expectedSignature: string) returns (outcome: CompareOutcome)
    ensures outcome == Compare(signatures, expectedSignature)
  {
    var expectedBytes := Utf8.Encode(expectedSignature);
    var signatureMatched := false;
    var i := 0;
    while i < |signatures|
      invariant 0 <= i <= |signatures|
      invariant !signatureMatched ==>
        Compare(signatures, expectedSignature) == Compare(signatures[i..], expectedSignature)
      invariant signatureMatched ==> Compare(signatures, expectedSignature) == Matched
    {
      var signature := signatures[i];
      assert signatures[i..][0] == signature && signatures[i..][1..] == signatures[i + 1..];
      if signature.None? {
        return Threw(BufferArgumentNotString);
      }
      var signatureBytes := Utf8.Encode(signature.value);
      if |signatureBytes| != |expectedBytes| {
        return Threw(ByteLengthMismatch);
      }
      if TimingSafeEqual(signatureBytes, expectedBytes) {
        signatureMatched := true;
        break;
      }
      i := i + 1;
    }
    if signatureMatched {
      return Matched;
    }
    assert signatures[i..] == [];
    return NoMatch;
  }

  /** `verifyTikTokSignature(signatureHeader, rawBody, clientSecret, toleranceSeconds)`
      with the clock reading `nowMillis`. */
  method VerifyTikTokSignature(signatureHeader: Option<string>, rawBody: string, clientSecret: string,
                               toleranceSeconds: int, nowMillis: int, hmac: Hmac)
    returns (r: Verdict)
    ensures r == Verification(signatureHeader, rawBody, clientSecret, toleranceSeconds, nowMillis, hmac)
    ensures r.valid <==> r.error.None?
  {
    if signatureHeader.None? {
      return Invalid(VerificationError(HeaderNotString));
    }
    var timestamp, signatures := ParseSignatureHeader(signatureHeader.value);
    if !Truthy(timestamp) {
      return Invalid(MissingTimestamp);
    }
    if |signatures| == 0 {
      return Invalid(MissingSignature);
    }

    var expectedSignature := ExpectedSignature(clientSecret, timestamp.value, rawBody, hmac);
    var outcome := CompareCandidates(signatures, expectedSignature);
    if outcome.Threw? {
      return Invalid(VerificationError(outcome.exception));
    }
    if outcome == NoMatch {
      return Invalid(SignatureMismatch);
    }

    var currentTimestamp := nowMillis / 1000;
    var webhookTimestamp := JsNumber.ParseInt(timestamp.value);
    if webhookTimestamp.Some? {
      var timeDifference := Abs(currentTimestamp - webhookTimestamp.value);
      if timeDifference > toleranceSeconds {
        return Invalid(TimestampTooOld(timeDifference, toleranceSeconds));
      }
    }
    return Valid;
  }

  /* ---------------------------------------------------------------------------
     Properties of the header parse
     ------------------------------------------------------------------------- */

  /** The last `t` element decides the timestamp. */
  lemma {:induction false} TimestampIsLastT(elements: seq<string>, i: nat)
    requires i < |elements| && ParseElement(elements[i]).prefix == "t"
    requires forall j :: i < j < |elements| ==> ParseElement(elements[j]).prefix != "t"
    ensures TimestampOf(elements) == ParseElement(elements[i]).value
  {
    if i < |elements| - 1 {
      var front := elements[..|elements| - 1];
      TimestampIsLastT(front, i);
    }
  }

  /** Without a `t` element the timestamp stays `null`. */
  lemma {:induction false} NoTElementNoTimestamp(elements: seq<string>)
    requires forall j :: 0 <= j < |elements| ==> ParseElement(elements[j]).prefix != "t"
    ensures TimestampOf(elements) == None
  {
    if elements != [] {
      NoTElementNoTimestamp(elements[..|elements| - 1]);
    }
  }

  /** The signatures of a header made of two parts are those of the first part
      followed by those of the second: header order is kept. */
  lemma {:induction false} SignaturesOfConcat(a: seq<string>, b: seq<string>)
    ensures SignaturesOf(a + b) == SignaturesOf(a) + SignaturesOf(b)
  {
    if b != [] {
      var front := b[..|b| - 1];
      assert (a + b)[..|a + b| - 1] == a + front;
      assert (a + b)[|a + b| - 1] == b[|b| - 1];
      SignaturesOfConcat(a, front);
    } else {
      assert a + b == a;
    }
  }

  /** A single element contributes its value when its prefix is `s`, and nothing
      otherwise (whatever its prefix: `t`, empty, or anything else). */
  lemma SignaturesOfOne(element: string)
    ensures SignaturesOf([element]) ==
      if ParseElement(element).prefix == "s" then [ParseElement(element).value] else []
  {
    assert [element][..0] == [];
  }

  /** The fields of an element `prefix=value[=...]`. */
  lemma {:induction false} ParseElementFields(prefix: string, value: string, rest: seq<string>)
    requires '=' !in prefix && '=' !in value
    requires forall k :: 0 <= k < |rest| ==> '=' !in rest[k]
    ensures ParseElement(Join([prefix, value] + rest, '=')) == Field(prefix, Some(value))
  {
    SplitJoin([prefix, value] + rest, '=');
  }

  /* ---------------------------------------------------------------------------
     Properties of the candidate loop
     ------------------------------------------------------------------------- */

  /** The loop stops at a match exactly when some candidate is the expected text
      and every candidate before it is comparable (and so did not raise). */
  lemma {:induction false} CompareMatchedIff(candidates: seq<Option<string>>, expected: string)
    ensures Compare(candidates, expected) == Matched <==>
      exists i :: 0 <= i < |candidates| && candidates[i] == Some(expected)
        && forall j :: 0 <= j < i ==> Comparable(candidates[j], expected)
  {
    if candidates != [] {
      CompareMatchedIff(candidates[1..], expected);
      var c := candidates[0];
      if c.Some? {
        Utf8.EncodeInjective(c.value, expected);
      }
      if Compare(candidates, expected) == Matched {
        if c.Some? && c.value == expected {
          assert candidates[0] == Some(expected);
        } else {
          var i :| 0 <= i < |candidates[1..]| && candidates[1..][i] == Some(expected)
            && forall j :: 0 <= j < i ==> Comparable(candidates[1..][j], expected);
          assert candidates[i + 1] == Some(expected);
          assert forall j :: 0 <= j < i + 1 ==> Comparable(candidates[j], expected) by {
            forall j | 0 <= j < i + 1 ensures Comparable(candidates[j], expected) {
              if j > 0 { assert candidates[j] == candidates[1..][j - 1]; }
            }
          }
        }
      } else {
        forall i | 0 <= i < |candidates| && candidates[i] == Some(expected)
          ensures exists j :: 0 <= j < i && !Comparable(candidates[j], expected)
        {
          if i == 0 {
            assert false;
          } else if !Comparable(c, expected) {
            assert !Comparable(candidates[0], expected);
          } else {
            assert candidates[1..][i - 1] == Some(expected);
            var j :| 0 <= j < i - 1 && !Comparable(candidates[1..][j], expected);
            assert !Comparable(candidates[j + 1], expected);
          }
        }
      }
    }
  }

  /** No candidate matches, and no exception is raised, exactly when every
      candidate is comparable and differs from the expected text. */
  lemma {:induction false} CompareNoMatchIff(candidates: seq<Option<string>>, expected: string)
    ensures Compare(candidates, expected) == NoMatch <==>
      forall i :: 0 <= i < |candidates| ==>
        Comparable(candidates[i], expected) && candidates[i] != Some(expected)
  {
    if candidates != [] {
      CompareNoMatchIff(candidates[1..], expected);
      var c := candidates[0];
      if c.Some? {
        Utf8.EncodeInjective(c.value, expected);
      }
      assert forall i :: 1 <= i < |candidates| ==> candidates[i] == candidates[1..][i - 1];
    }
  }

  /** Key rotation: the expected signature next to a garbage candidate of the same
      byte length passes, in either order. */
  lemma RotationAccepts(garbage: string, expected: string)
    requires |Utf8.Encode(garbage)| == |Utf8.Encode(expected)|
    ensures Compare([Some(garbage), Some(expected)], expected) == Matched
    ensures Compare([Some(expected), Some(garbage)], expected) == Matched
  {
    CompareMatchedIff([Some(garbage), Some(expected)], expected);
    assert [Some(garbage), Some(expected)][1] == Some(expected);
    CompareMatchedIff([Some(expected), Some(garbage)], expected);
    assert [Some(expected), Some(garbage)][0] == Some(expected);
  }

  /** A candidate of another byte length reached before any match aborts the loop
      with the `timingSafeEqual` exception, even when a later candidate is
      correct. */
  lemma WrongLengthAborts(bad: string, rest: seq<Option<string>>, expected: string)
    requires |Utf8.Encode(bad)| != |Utf8.Encode(expected)|
    ensures Compare([Some(bad)] + rest, expected) == Threw(ByteLengthMismatch)
  {
    assert ([Some(bad)] + rest)[0] == Some(bad);
  }

  /* ---------------------------------------------------------------------------
     Properties of the whole check
     ------------------------------------------------------------------------- */

  /** An absent header raises in `split` and is reported as a verification error. */
  lemma AbsentHeader(rawBody: string, clientSecret: string, toleranceSeconds: int, nowMillis: int, hmac: Hmac)
    ensures Verification(None, rawBody, clientSecret, toleranceSeconds, nowMillis, hmac)
      == Invalid(VerificationError(HeaderNotString))
  {
  }

  /** Without a truthy timestamp the answer is "Missing timestamp", whatever the
      secret, the clock and the HMAC (none of them is consulted). */
  lemma MissingTimestampFirst(header: string, rawBody: string, secret1: string, secret2: string,
                              tolerance1: int, tolerance2: int, now1: int, now2: int, hmac1: Hmac, hmac2: Hmac)
    requires !Truthy(TimestampOf(Split(header, ',')))
    ensures Verification(Some(header), rawBody, secret1, tolerance1, now1, hmac1) == Invalid(MissingTimestamp)
    ensures Verification(Some(header), rawBody, secret2, tolerance2, now2, hmac2) == Invalid(MissingTimestamp)
  {
  }

  /** A truthy timestamp without any `s` element: "Missing signature", again
      before any HMAC or clock is consulted. */
  lemma MissingSignatureSecond(header: string, rawBody: string, secret1: string, secret2: string,
                               tolerance1: int, tolerance2: int, now1: int, now2: int, hmac1: Hmac, hmac2: Hmac)
    requires Truthy(TimestampOf(Split(header, ',')))
    requires SignaturesOf(Split(header, ',')) == []
    ensures Verification(Some(header), rawBody, secret1, tolerance1, now1, hmac1) == Invalid(MissingSignature)
    ensures Verification(Some(header), rawBody, secret2, tolerance2, now2, hmac2) == Invalid(MissingSignature)
  {
  }

  /** When no candidate matches, the answer is "Signature verification failed"
      for every clock reading and tolerance: a mismatch is never reported as
      stale. */
  lemma MismatchIgnoresClock(header: string, rawBody: string, clientSecret: string,
                             tolerance1: int, tolerance2: int, now1: int, now2: int, hmac: Hmac)
    requires Truthy(TimestampOf(Split(header, ',')))
    requires SignaturesOf(Split(header, ',')) != []
    requires
      var t := TimestampOf(Split(header, ',')).value;
      Compare(SignaturesOf(Split(header, ',')), ExpectedSignature(clientSecret, t, rawBody, hmac)) == NoMatch
    ensures Verification(Some(header), rawBody, clientSecret, tolerance1, now1, hmac) == Invalid(SignatureMismatch)
    ensures Verification(Some(header), rawBody, clientSecret, tolerance2, now2, hmac) == Invalid(SignatureMismatch)
  {
  }

  /** After a match the verdict is the outcome of the freshness test, whatever
      else the header holds. */
  lemma FreshnessAfterMatch(header: string, rawBody: string, clientSecret: string,
                            toleranceSeconds: int, nowMillis: int, hmac: Hmac)
    requires Truthy(TimestampOf(Split(header, ',')))
    requires SignaturesOf(Split(header, ',')) != []
    requires
      var t := TimestampOf(Split(header, ',')).value;
      Compare(SignaturesOf(Split(header, ',')), ExpectedSignature(clientSecret, t, rawBody, hmac)) == Matched
    ensures
      Verification(Some(header), rawBody, clientSecret, toleranceSeconds, nowMillis, hmac)
        == Freshness(TimestampOf(Split(header, ',')).value, nowMillis, toleranceSeconds)
  {
  }

  /** An exception in the candidate loop (an `undefined` candidate or one of
      another byte length, reached before any match) is caught and reported as a
      verification error, for every clock reading and tolerance. */
  lemma CompareThrewIsVerificationError(header: string, rawBody: string, clientSecret: string,
                                        tolerance1: int, tolerance2: int, now1: int, now2: int,
                                        hmac: Hmac, e: Exception)
    requires Truthy(TimestampOf(Split(header, ',')))
    requires SignaturesOf(Split(header, ',')) != []
    requires
      var t := TimestampOf(Split(header, ',')).value;
      Compare(SignaturesOf(Split(header, ',')), ExpectedSignature(clientSecret, t, rawBody, hmac)) == Threw(e)
    ensures Verification(Some(header), rawBody, clientSecret, tolerance1, now1, hmac) == Invalid(VerificationError(e))
    ensures Verification(Some(header), rawBody, clientSecret, tolerance2, now2, hmac) == Invalid(VerificationError(e))
  {
  }

  /** Soundness: a valid verdict means the header was present, its timestamp
      truthy, the recomputed hex HMAC over `timestamp.rawBody` is one of its
      candidates, and the timestamp is either not a number or within the
      tolerance of the clock. */
  lemma ValidImpliesSigned(signatureHeader: Option<string>, rawBody: string, clientSecret: string,
                           toleranceSeconds: int, nowMillis: int, hmac: Hmac)
    requires Verification(signatureHeader, rawBody, clientSecret, toleranceSeconds, nowMillis, hmac).valid
    ensures signatureHeader.Some?
    ensures
      var es := Split(signatureHeader.value, ',');
      && Truthy(TimestampOf(es))
      && Some(ExpectedSignature(clientSecret, TimestampOf(es).value, rawBody, hmac)) in SignaturesOf(es)
      && match JsNumber.ParseInt(TimestampOf(es).value)
         case None => true
         case Some(w) => Abs(nowMillis / 1000 - w) <= toleranceSeconds
  {
    var es := Split(signatureHeader.value, ',');
    var t := TimestampOf(es).value;
    var expected := ExpectedSignature(clientSecret, t, rawBody, hmac);
    assert Compare(SignaturesOf(es), expected) == Matched;
    FreshnessWindow(t, nowMillis, toleranceSeconds);
  }

  /** The freshness test alone: valid within the tolerance or for a timestamp
      that is not a number, otherwise "too old" with the difference. */
  lemma FreshnessWindow(timestamp: string, nowMillis: int, toleranceSeconds: int)
    ensures
      var r := Freshness(timestamp, nowMillis, toleranceSeconds);
      match JsNumber.ParseInt(timestamp)
      case None => r == Valid
      case Some(w) =>
        && (r.valid <==> Abs(nowMillis / 1000 - w) <= toleranceSeconds)
        && (!r.valid ==> r == Invalid(TimestampTooOld(Abs(nowMillis / 1000 - w), toleranceSeconds)))
  {
  }

  /** The header a correct sender builds for a numeric timestamp. */
  function SignedHeader(timestamp: int, rawBody: string, clientSecret: string, hmac: Hmac): string {
    var t := JsNumber.IntToDecimal(timestamp);
    "t=" + t + ",s=" + ExpectedSignature(clientSecret, t, rawBody, hmac)
  }

  lemma DecimalHasNoSeparators(n: int)
    ensures ',' !in JsNumber.IntToDecimal(n) && '=' !in JsNumber.IntToDecimal(n)
  {
    var t := JsNumber.IntToDecimal(n);
    assert forall k :: 0 <= k < |t| ==> t[k] == '-' || JsNumber.IsDigit(t[k]);
  }

  lemma HexHasNoSeparators(d: seq<Byte>)
    ensures ',' !in Hex.Encode(d) && '=' !in Hex.Encode(d)
  {
  }

  /** A header of one `t` element followed by one `s` element. */
  lemma TwoElementHeader(tElement: string, sElement: string)
    requires ParseElement(tElement).prefix == "t" && ParseElement(sElement).prefix == "s"
    ensures TimestampOf([tElement, sElement]) == ParseElement(tElement).value
    ensures SignaturesOf([tElement, sElement]) == [ParseElement(sElement).value]
  {
    assert [tElement, sElement][..1] == [tElement];
    assert [tElement][..0] == [];
    assert SignaturesOf([tElement]) == SignaturesOf([]) + [];
  }

  lemma {:induction false} SignedHeaderParses(timestamp: int, rawBody: string, clientSecret: string, hmac: Hmac)
    ensures
      var t := JsNumber.IntToDecimal(timestamp);
      var elements := Split(SignedHeader(timestamp, rawBody, clientSecret, hmac), ',');
      TimestampOf(elements) == Some(t) &&
      SignaturesOf(elements) == [Some(ExpectedSignature(clientSecret, t, rawBody, hmac))]
  {
    var t := JsNumber.IntToDecimal(timestamp);
    var e := ExpectedSignature(clientSecret, t, rawBody, hmac);
    DecimalHasNoSeparators(timestamp);
    HexHasNoSeparators(hmac(clientSecret, SignedPayload(t, rawBody)));
    var tElement, sElement := Join(["t", t], '='), Join(["s", e], '=');
    JoinTwo("t", t, '=');
    JoinTwo("s", e, '=');
    JoinTwo(tElement, sElement, ',');
    assert ',' !in tElement && ',' !in sElement;
    assert SignedHeader(timestamp, rawBody, clientSecret, hmac) == Join([tElement, sElement], ',');
    SplitJoin([tElement, sElement], ',');
    ParseElementFields("t", t, []);
    ParseElementFields("s", e, []);
    TwoElementHeader(tElement, sElement);
  }

  /** A request signed with the shared secret over its exact body passes the
      signature stage, so its verdict is the freshness test's. */
  lemma {:induction false} SignedRequestMatches(timestamp: int, rawBody: string, clientSecret: string,
                                                toleranceSeconds: int, nowMillis: int, hmac: Hmac)
    ensures Verification(Some(SignedHeader(timestamp, rawBody, clientSecret, hmac)), rawBody, clientSecret,
                         toleranceSeconds, nowMillis, hmac)
      == Freshness(JsNumber.IntToDecimal(timestamp), nowMillis, toleranceSeconds)
  {
    var t := JsNumber.IntToDecimal(timestamp);
    var e := ExpectedSignature(clientSecret, t, rawBody, hmac);
    SignedHeaderParses(timestamp, rawBody, clientSecret, hmac);
    CompareMatchedIff([Some(e)], e);
  }

  /** A request signed with the shared secret over its exact body, with a
      timestamp within the tolerance, is accepted. */
  lemma {:induction false} SignedRequestAccepted(timestamp: int, rawBody: string, clientSecret: string,
                                                 toleranceSeconds: int, nowMillis: int, hmac: Hmac)
    requires Abs(nowMillis / 1000 - timestamp) <= toleranceSeconds
    ensures Verification(Some(SignedHeader(timestamp, rawBody, clientSecret, hmac)), rawBody, clientSecret,
                         toleranceSeconds, nowMillis, hmac) == Valid
  {
    SignedRequestMatches(timestamp, rawBody, clientSecret, toleranceSeconds, nowMillis, hmac);
    JsNumber.ParseIntOfIntToDecimal(timestamp);
  }

  /** The same request outside the tolerance is rejected as stale, with the
      observed difference and the tolerance in the diagnostic. */
  lemma {:induction false} SignedStaleRequestRejected(timestamp: int, rawBody: string, clientSecret: string,
                                                      toleranceSeconds: int, nowMillis: int, hmac: Hmac)
    requires Abs(nowMillis / 1000 - timestamp) > toleranceSeconds
    ensures Verification(Some(SignedHeader(timestamp, rawBody, clientSecret, hmac)), rawBody, clientSecret,
                         toleranceSeconds, nowMillis, hmac)
      == Invalid(TimestampTooOld(Abs(nowMillis / 1000 - timestamp), toleranceSeconds))
  {
    SignedRequestMatches(timestamp, rawBody, clientSecret, toleranceSeconds, nowMillis, hmac);
    JsNumber.ParseIntOfIntToDecimal(timestamp);
    FreshnessRejectsStale(JsNumber.IntToDecimal(timestamp), timestamp, nowMillis, toleranceSeconds);
  }

  lemma FreshnessRejectsStale(t: string, w: int, nowMillis: int, toleranceSeconds: int)
    requires JsNumber.ParseInt(t) == Some(w)
    requires Abs(nowMillis / 1000 - w) > toleranceSeconds
    ensures Freshness(t, nowMillis, toleranceSeconds)
      == Invalid(TimestampTooOld(Abs(nowMillis / 1000 - w), toleranceSeconds))
  {
  }

  /** A body changed after signing is rejected as a mismatch whenever the HMAC
      tells the two signed payloads apart (HMAC-SHA256 digests all have the same
      length, 32 bytes). */
  lemma {:induction false} TamperedBodyRejected(timestamp: int, signedBody: string, receivedBody: string,
                                                clientSecret: string, toleranceSeconds: int, nowMillis: int, hmac: Hmac)
    requires
      var t := JsNumber.IntToDecimal(timestamp);
      && |hmac(clientSecret, SignedPayload(t, signedBody))| == |hmac(clientSecret, SignedPayload(t, receivedBody))|
      && hmac(clientSecret, SignedPayload(t, signedBody)) != hmac(clientSecret, SignedPayload(t, receivedBody))
    ensures Verification(Some(SignedHeader(timestamp, signedBody, clientSecret, hmac)), receivedBody, clientSecret,
                         toleranceSeconds, nowMillis, hmac) == Invalid(SignatureMismatch)
  {
    var t := JsNumber.IntToDecimal(timestamp);
    var d1, d2 := hmac(clientSecret, SignedPayload(t, signedBody)), hmac(clientSecret, SignedPayload(t, receivedBody));
    SignedHeaderParses(timestamp, signedBody, clientSecret, hmac);
    Hex.EncodeInjective(d1, d2);
    Hex.EncodeIsAscii(d1);
    Hex.EncodeIsAscii(d2);
    CompareNoMatchIff([Some(Hex.Encode(d1))], Hex.Encode(d2));
  }

  /* ---------------------------------------------------------------------------
     The wrapper `withTikTokVerification`
     ------------------------------------------------------------------------- */

  /** The parts of a Netlify function event the wrapper reads. */
  datatype Event = Event(signatureHeader: Option<string>, body: Option<string>)

  datatype ResponseBody =
    | ErrorJson(error: string, details: Option<string>)
    | Json(text: string)

  datatype Response = Response(statusCode: int, body: ResponseBody)

  /** `${event.body}` renders a `null` body as the text "null". */
  function BodyText(body: Option<string>): string {
    body.GetOr("null")
  }

  /** The handler `withTikTokVerification(handler)` returns, applied to an event,
      with the environment's `TIKTOK_CLIENT_SECRET` (None when unset). */
  function WithTikTokVerification(handler: Event -> Response, event: Event, clientSecret: Option<string>,
                                  nowMillis: int, hmac: Hmac): (r: Response)
    ensures !Truthy(event.signatureHeader) ==> r == Response(401, ErrorJson("Missing x-tiktok-signature header", None))
    ensures Truthy(event.signatureHeader) && !Truthy(clientSecret) ==>
      r == Response(500, ErrorJson("Server configuration error", None))
    ensures Truthy(event.signatureHeader) && Truthy(clientSecret) ==>
      var v := Verification(event.signatureHeader, BodyText(event.body), clientSecret.value,
                            DefaultToleranceSeconds, nowMillis, hmac);
      && (v.valid ==> r == handler(event))
      && (!v.valid ==> r == Response(401, ErrorJson("Invalid signature", Some(ErrorText(v.error.value)))))
  {
    if !Truthy(event.signatureHeader) then
      Response(401, ErrorJson("Missing x-tiktok-signature header", None))
    else if !Truthy(clientSecret) then
      Response(500, ErrorJson("Server configuration error", None))
    else
      var verification := Verification(event.signatureHeader, BodyText(event.body), clientSecret.value,
                                       DefaultToleranceSeconds, nowMillis, hmac);
      if !verification.valid then
        Response(401, ErrorJson("Invalid signature", Some(ErrorText(verification.error.value))))
      else handler(event)
  }

  /** A missing header is rejected before the secret, the clock or the HMAC are
      consulted. */
  lemma MissingHeaderSkipsVerifier(handler: Event -> Response, event: Event, secret1: Option<string>,
                                   secret2: Option<string>, now1: int, now2: int, hmac1: Hmac, hmac2: Hmac)
    requires !Truthy(event.signatureHeader)
    ensures WithTikTokVerification(handler, event, secret1, now1, hmac1)
         == WithTikTokVerification(handler, event, secret2, now2, hmac2)
  {
  }

  /** A correctly signed, fresh request reaches the handler, whose response is
      returned unchanged. */
  lemma SignedEventReachesHandler(handler: Event -> Response, timestamp: int, rawBody: string,
                                  clientSecret: string, nowMillis: int, hmac: Hmac)
    requires clientSecret != ""
    requires Abs(nowMillis / 1000 - timestamp) <= DefaultToleranceSeconds
    ensures
      var event := Event(Some(SignedHeader(timestamp, rawBody, clientSecret, hmac)), Some(rawBody));
      WithTikTokVerification(handler, event, Some(clientSecret), nowMillis, hmac) == handler(event)
  {
    SignedRequestAccepted(timestamp, rawBody, clientSecret, DefaultToleranceSeconds, nowMillis, hmac);
  }
}
