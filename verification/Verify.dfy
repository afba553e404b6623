/** Verification of inbound signed requests: the parsers, the freshness window and the acceptance decision. */
module Verify {
  import opened Errors
  import opened Int64
  import opened Text
  import opened Uuids
  import opened Credential
  import opened Wire
  import opened Request
  import Base64
  import Decimal
  import Utf8

  datatype IncomingRequest = IncomingRequest(
    parts: RequestParts,
    serviceId: Uuid,
    instanceId: Uuid,
    contentDigest: string,
    signatureInput: string,
    signature: string
  )

  datatype VerifiedRequest = VerifiedRequest(
    serviceId: Uuid,
    instanceId: Uuid,
    keyId: Uuid,
    requestId: Uuid,
    created: I64,
    expires: I64
  )

  datatype SignatureMetadata = SignatureMetadata(parameters: string, created: I64, expires: I64, keyId: Uuid)

  function FromWire(
    parts: RequestParts, serviceId: string, instanceId: string,
    contentDigest: string, signatureInput: string, signature: string
  ): (r: Result<IncomingRequest>)
  {
    var service :- Parse(serviceId).OkOr(InvalidRequestPart("service_id"));
    var instance :- Parse(instanceId).OkOr(InvalidRequestPart("instance_id"));
    Ok(IncomingRequest(parts, service, instance, contentDigest, signatureInput, signature))
  }

  /**
   * Malformed ids are refused, the service id first, and everything else is kept: the ids of an accepted request are
   * the ones its texts spell.
   */
  lemma FromWireDecision(
    parts: RequestParts, serviceId: string, instanceId: string,
    contentDigest: string, signatureInput: string, signature: string
  )
    ensures var r := FromWire(parts, serviceId, instanceId, contentDigest, signatureInput, signature);
            if !UuidText(serviceId) then r == Err(InvalidRequestPart("service_id"))
            else if !UuidText(instanceId) then r == Err(InvalidRequestPart("instance_id"))
            else
              && r.Ok? && Spells(serviceId, r.value.serviceId) && Spells(instanceId, r.value.instanceId)
              && r.value.parts == parts && r.value.contentDigest == contentDigest
              && r.value.signatureInput == signatureInput && r.value.signature == signature
  {
    UuidTextDecision(serviceId);
    UuidTextDecision(instanceId);
    if UuidText(serviceId) && UuidText(instanceId) {
      ParseDecision(serviceId, Parse(serviceId).value);
      ParseDecision(instanceId, Parse(instanceId).value);
    }
  }

  // ---------------------------------------------------------------- timestamps

  predicate IsDigitByte(b: byte) {
    '0' as int <= b <= '9' as int
  }

  function ParseTimestamp(value: string): (r: Result<I64>) {
    if value == "" || !Utf8.AllBytes(value, IsDigitByte) then
      Err(InvalidRequestPart("timestamp"))
    else
      DigitBytes(value);
      Decimal.ParseChecked(value, 0).OkOr(InvalidRequestPart("timestamp"))
  }

  lemma DigitBytes(value: string)
    ensures Utf8.AllBytes(value, IsDigitByte) <==> Decimal.AllDigits(value)
  {
    Utf8.AsciiTest(value, IsDigitByte);
    assert Utf8.AllAscii(value, IsDigitByte) <==> forall c | c in value :: Decimal.IsDigit(c);
  }

  /** Digits of any length, leading zeros included, that denote a 64-bit number. */
  predicate TimestampText(value: string) {
    value != "" && Decimal.AllDigits(value) && Decimal.Value(value) <= I64_MAX
  }

  /** A timestamp parses exactly when it is a digit string whose decimal value fits, and then to that value. */
  lemma TimestampDecision(value: string)
    ensures ParseTimestamp(value) ==
            if TimestampText(value) then Ok(Decimal.Value(value)) else Err(InvalidRequestPart("timestamp"))
  {
    DigitBytes(value);
    if value != "" && Decimal.AllDigits(value) {
      Decimal.ParseCheckedIsBounded(value, 0);
      Decimal.ValueAfterZero(value);
    }
  }

  /** The parser inverts the printer on every time a signer can write. */
  lemma TimestampRoundTrip(time: I64)
    requires 0 <= time
    ensures TimestampText(Decimal.Text(time)) && ParseTimestamp(Decimal.Text(time)) == Ok(time)
  {
    Decimal.ValueOfNatText(time);
    TimestampDecision(Decimal.Text(time));
  }

  // ---------------------------------------------------------------- the signature input

  const BAD_INPUT := InvalidRequestPart("signature_input")

  datatype InputTexts = InputTexts(created: string, expires: string, nonce: string, keyId: string)

  /** The four variable texts of a parameter list, split at the first occurrence of each delimiter. */
  function SplitParameters(parameters: string): (r: Option<InputTexts>) {
    var afterComponents :- StripPrefix(parameters, COVERED_COMPONENTS);
    var remainder :- StripPrefix(afterComponents, ";created=");
    var (created, remainder) :- SplitOnce(remainder, ";expires=");
    var (expires, remainder) :- SplitOnce(remainder, ";nonce=\"");
    var (nonce, remainder) :- SplitOnce(remainder, "\";keyid=\"");
    var (keyId, algorithm) :- SplitOnce(remainder, "\";alg=\"");
    if algorithm != "ed25519\"" then None
    else Some(InputTexts(created, expires, nonce, keyId))
  }

  function ParseSignatureInput(value: string): (r: Result<SignatureMetadata>) {
    var parameters :- StripPrefix(value, SIGNATURE_LABEL + "=").OkOr(BAD_INPUT);
    var texts :- SplitParameters(parameters).OkOr(BAD_INPUT);
    var created :- ParseTimestamp(texts.created);
    var expires :- ParseTimestamp(texts.expires);
    var _ :- ValidateSignatureMetadata(created, expires, texts.nonce);
    var keyId :- Parse(texts.keyId).OkOr(BAD_INPUT);
    Ok(SignatureMetadata(parameters, created, expires, keyId))
  }

  /** The one accepted form of a signature input, given by its four texts. */
  predicate InGrammar(value: string, t: InputTexts) {
    && value == SIGNATURE_LABEL + "=" + ParametersText(t.created, t.expires, t.nonce, t.keyId)
    && TimestampText(t.created) && TimestampText(t.expires)
    && ValidWindow(Decimal.Value(t.created), Decimal.Value(t.expires))
    && NonceText(t.nonce)
    && Parse(t.keyId).Some?
  }

  /** First-occurrence splitting finds the joints of a parameter list whose texts avoid the delimiters. */
  lemma SplitOfParametersText(t: InputTexts)
    requires ';' !in t.created && ';' !in t.expires && '\"' !in t.nonce && '\"' !in t.keyId
    ensures SplitParameters(ParametersText(t.created, t.expires, t.nonce, t.keyId)) == Some(t)
  {
    var s4 := t.keyId + ("\";alg=\"" + "ed25519\"");
    var s3 := t.nonce + ("\";keyid=\"" + s4);
    var s2 := t.expires + (";nonce=\"" + s3);
    var s1 := t.created + (";expires=" + s2);
    StripPrefixOfJoin(COVERED_COMPONENTS, ";created=" + s1);
    StripPrefixOfJoin(";created=", s1);
    SplitOnceOfJoin(t.created, ";expires=", s2);
    SplitOnceOfJoin(t.expires, ";nonce=\"", s3);
    SplitOnceOfJoin(t.nonce, "\";keyid=\"", s4);
    SplitOnceOfJoin(t.keyId, "\";alg=\"", "ed25519\"");
  }

  lemma ParametersTextOfSplit(parameters: string)
    requires SplitParameters(parameters).Some?
    ensures var t := SplitParameters(parameters).value;
            parameters == ParametersText(t.created, t.expires, t.nonce, t.keyId)
  {
    var components := COVERED_COMPONENTS;
    var afterComponents := StripPrefix(parameters, components).value;
    var s0 := StripPrefix(afterComponents, ";created=").value;
    assert parameters == components + afterComponents && afterComponents == ";created=" + s0;
    var (created, s1) := SplitOnce(s0, ";expires=").value;
    var (expires, s2) := SplitOnce(s1, ";nonce=\"").value;
    var (nonce, s3) := SplitOnce(s2, "\";keyid=\"").value;
    var (keyId, algorithm) := SplitOnce(s3, "\";alg=\"").value;
    assert SplitParameters(parameters) == Some(InputTexts(created, expires, nonce, keyId)) && algorithm == "ed25519\"";
  }

  lemma GrammarAvoidsDelimiters(value: string, t: InputTexts)
    requires InGrammar(value, t)
    ensures ';' !in t.created && ';' !in t.expires && '\"' !in t.nonce && '\"' !in t.keyId
  {
    ParsedChars(t.keyId);
  }

  /** A signature input in the grammar parses, to the values its texts denote and to itself minus the label. */
  lemma GrammarIsAccepted(value: string, t: InputTexts)
    requires InGrammar(value, t)
    ensures ParseSignatureInput(value) == Ok(SignatureMetadata(
                                               ParametersText(t.created, t.expires, t.nonce, t.keyId),
                                               Decimal.Value(t.created), Decimal.Value(t.expires), Parse(t.keyId).value))
  {
    StripPrefixOfJoin(SIGNATURE_LABEL + "=", ParametersText(t.created, t.expires, t.nonce, t.keyId));
    GrammarAvoidsDelimiters(value, t);
    SplitOfParametersText(t);
    TimestampDecision(t.created);
    TimestampDecision(t.expires);
    MetadataDecision(Decimal.Value(t.created), Decimal.Value(t.expires), t.nonce);
  }

  /** Whatever parses is in the grammar. */
  lemma AcceptedIsInGrammar(value: string) returns (t: InputTexts)
    requires ParseSignatureInput(value).Ok?
    ensures InGrammar(value, t)
    ensures value == SIGNATURE_LABEL + "=" + ParseSignatureInput(value).value.parameters
  {
    var parameters := StripPrefix(value, SIGNATURE_LABEL + "=").value;
    t := SplitParameters(parameters).value;
    ParametersTextOfSplit(parameters);
    TimestampDecision(t.created);
    TimestampDecision(t.expires);
    MetadataDecision(Decimal.Value(t.created), Decimal.Value(t.expires), t.nonce);
  }

  /** Acceptance is membership in the grammar. */
  lemma SignatureInputDecision(value: string)
    ensures ParseSignatureInput(value).Ok? <==> exists t :: InGrammar(value, t)
  {
    if ParseSignatureInput(value).Ok? {
      var _ := AcceptedIsInGrammar(value);
    } else if t :| InGrammar(value, t) {
      GrammarIsAccepted(value, t);
    }
  }

  /** The grammar is unambiguous: a text splits into its four parts in one way. */
  lemma GrammarIsUnambiguous(value: string, t: InputTexts, u: InputTexts)
    requires InGrammar(value, t) && InGrammar(value, u)
    ensures t == u
  {
    GrammarAvoidsDelimiters(value, t);
    GrammarAvoidsDelimiters(value, u);
    SplitOfParametersText(t);
    SplitOfParametersText(u);
    StripPrefixOfJoin(SIGNATURE_LABEL + "=", ParametersText(t.created, t.expires, t.nonce, t.keyId));
    StripPrefixOfJoin(SIGNATURE_LABEL + "=", ParametersText(u.created, u.expires, u.nonce, u.keyId));
  }

  /** Parsing inverts printing: a signer's input yields its own times, key id and verbatim parameters. */
  lemma ParseOfSignatureParameters(created: I64, expires: I64, nonce: string, keyId: Uuid)
    requires ValidateSignatureMetadata(created, expires, nonce).Ok?
    ensures ParseSignatureInput(SIGNATURE_LABEL + "=" + SignatureParameters(created, expires, nonce, keyId))
         == Ok(SignatureMetadata(SignatureParameters(created, expires, nonce, keyId), created, expires, keyId))
  {
    MetadataDecision(created, expires, nonce);
    Decimal.ValueOfNatText(created);
    Decimal.ValueOfNatText(expires);
    ParseOfToText(keyId);
    var t := InputTexts(Decimal.Text(created), Decimal.Text(expires), nonce, ToText(keyId));
    GrammarIsAccepted(SIGNATURE_LABEL + "=" + SignatureParameters(created, expires, nonce, keyId), t);
  }

  // ---------------------------------------------------------------- refused signature inputs

  /** The text splits into these four parts, each delimiter being the first of its kind behind the previous one. */
  predicate SplitsInto(value: string, t: InputTexts) {
    var afterKeyId := "ed25519\"";
    var afterNonce := t.keyId + ("\";alg=\"" + afterKeyId);
    var afterExpires := t.nonce + ("\";keyid=\"" + afterNonce);
    var afterCreated := t.expires + (";nonce=\"" + afterExpires);
    && value == SIGNATURE_LABEL + "=" + ParametersText(t.created, t.expires, t.nonce, t.keyId)
    && FirstJoint(t.created, ";expires=", afterCreated)
    && FirstJoint(t.expires, ";nonce=\"", afterExpires)
    && FirstJoint(t.nonce, "\";keyid=\"", afterNonce)
    && FirstJoint(t.keyId, "\";alg=\"", afterKeyId)
  }

  lemma SplitsIntoIsSplit(value: string, t: InputTexts)
    requires SplitsInto(value, t)
    ensures StripPrefix(value, SIGNATURE_LABEL + "=").Some?
    ensures SplitParameters(StripPrefix(value, SIGNATURE_LABEL + "=").value) == Some(t)
  {
    var s4 := t.keyId + ("\";alg=\"" + "ed25519\"");
    var s3 := t.nonce + ("\";keyid=\"" + s4);
    var s2 := t.expires + (";nonce=\"" + s3);
    var s1 := t.created + (";expires=" + s2);
    StripPrefixOfJoin(SIGNATURE_LABEL + "=", ParametersText(t.created, t.expires, t.nonce, t.keyId));
    StripPrefixOfJoin(COVERED_COMPONENTS, ";created=" + s1);
    StripPrefixOfJoin(";created=", s1);
    FindAtJoin(t.created, ";expires=", s2);
    FindAtJoin(t.expires, ";nonce=\"", s3);
    FindAtJoin(t.nonce, "\";keyid=\"", s4);
    FindAtJoin(t.keyId, "\";alg=\"", "ed25519\"");
  }

  lemma SplitIsSplitsInto(value: string)
    requires StripPrefix(value, SIGNATURE_LABEL + "=").Some?
    requires SplitParameters(StripPrefix(value, SIGNATURE_LABEL + "=").value).Some?
    ensures SplitsInto(value, SplitParameters(StripPrefix(value, SIGNATURE_LABEL + "=").value).value)
  {
    var parameters := StripPrefix(value, SIGNATURE_LABEL + "=").value;
    ParametersTextOfSplit(parameters);
    var s0 := StripPrefix(StripPrefix(parameters, COVERED_COMPONENTS).value, ";created=").value;
    var (created, s1) := SplitOnce(s0, ";expires=").value;
    var (expires, s2) := SplitOnce(s1, ";nonce=\"").value;
    var (nonce, s3) := SplitOnce(s2, "\";keyid=\"").value;
    var (keyId, s4) := SplitOnce(s3, "\";alg=\"").value;
    SplitOnceDecision(s0, ";expires=", created, s1);
    SplitOnceDecision(s1, ";nonce=\"", expires, s2);
    SplitOnceDecision(s2, "\";keyid=\"", nonce, s3);
    SplitOnceDecision(s3, "\";alg=\"", keyId, s4);
  }

  /** A text that splits is refused for the first of its parts that is wrong, and otherwise parses to what they denote. */
  lemma SplitInputDecision(value: string, t: InputTexts)
    requires SplitsInto(value, t)
    ensures ParseSignatureInput(value) ==
            if !TimestampText(t.created) || !TimestampText(t.expires) then Err(InvalidRequestPart("timestamp"))
            else if !ValidWindow(Decimal.Value(t.created), Decimal.Value(t.expires)) then
              Err(InvalidRequestPart("expires"))
            else if !NonceText(t.nonce) then Err(InvalidRequestPart("nonce"))
            else if Parse(t.keyId).None? then Err(InvalidRequestPart("signature_input"))
            else Ok(SignatureMetadata(ParametersText(t.created, t.expires, t.nonce, t.keyId),
                                      Decimal.Value(t.created), Decimal.Value(t.expires), Parse(t.keyId).value))
  {
    SplitsIntoIsSplit(value, t);
    TimestampDecision(t.created);
    TimestampDecision(t.expires);
    if TimestampText(t.created) && TimestampText(t.expires) {
      MetadataDecision(Decimal.Value(t.created), Decimal.Value(t.expires), t.nonce);
      StripPrefixOfJoin(SIGNATURE_LABEL + "=", ParametersText(t.created, t.expires, t.nonce, t.keyId));
    }
  }

  /** A text that does not split at all is refused as a malformed signature input. */
  lemma UnsplitInputIsRefused(value: string)
    requires !exists t :: SplitsInto(value, t)
    ensures ParseSignatureInput(value) == Err(InvalidRequestPart("signature_input"))
  {
    if StripPrefix(value, SIGNATURE_LABEL + "=").Some? {
      var parameters := StripPrefix(value, SIGNATURE_LABEL + "=").value;
      if SplitParameters(parameters).Some? {
        SplitIsSplitsInto(value);
      }
    }
  }

  // ---------------------------------------------------------------- signature inputs a signer would not print

  lemma OtherTextsAreAccepted(value: string, t: InputTexts, u: InputTexts)
    requires InGrammar(value, t) && u != t && u.nonce == t.nonce && Parse(u.keyId) == Parse(t.keyId)
    requires u.created != "" && Decimal.AllDigits(u.created) && Decimal.Value(u.created) == Decimal.Value(t.created)
    requires u.expires != "" && Decimal.AllDigits(u.expires) && Decimal.Value(u.expires) == Decimal.Value(t.expires)
    ensures var other := SIGNATURE_LABEL + "=" + ParametersText(u.created, u.expires, u.nonce, u.keyId);
            && other != value
            && ParseSignatureInput(other) == Ok(SignatureMetadata(
                                                  ParametersText(u.created, u.expires, u.nonce, u.keyId),
                                                  Decimal.Value(t.created), Decimal.Value(t.expires),
                                                  Parse(t.keyId).value))
  {
    var other := SIGNATURE_LABEL + "=" + ParametersText(u.created, u.expires, u.nonce, u.keyId);
    assert InGrammar(other, u);
    GrammarIsAccepted(other, u);
    if other == value {
      GrammarIsUnambiguous(value, t, u);
    }
  }

  /** Any number of zeros before either time: another text, accepted for the same times and key id. */
  lemma LeadingZerosAreAccepted(value: string, t: InputTexts, m: nat, n: nat)
    requires InGrammar(value, t) && m + n > 0
    ensures var u := t.(created := Decimal.Zeros(m) + t.created, expires := Decimal.Zeros(n) + t.expires);
            var padded := SIGNATURE_LABEL + "=" + ParametersText(u.created, u.expires, u.nonce, u.keyId);
            && padded != value
            && ParseSignatureInput(padded) == Ok(SignatureMetadata(
                                                   ParametersText(u.created, u.expires, u.nonce, u.keyId),
                                                   Decimal.Value(t.created), Decimal.Value(t.expires),
                                                   Parse(t.keyId).value))
  {
    var u := t.(created := Decimal.Zeros(m) + t.created, expires := Decimal.Zeros(n) + t.expires);
    Decimal.ValueBehindZeros(m, t.created);
    Decimal.ValueBehindZeros(n, t.expires);
    OtherTextsAreAccepted(value, t, u);
  }

  /** Any other spelling of the key id: another text, accepted for the same times and key id. */
  lemma OtherSpellingsAreAccepted(value: string, t: InputTexts, keyId: string)
    requires InGrammar(value, t) && Parse(keyId) == Parse(t.keyId) && keyId != t.keyId
    ensures var other := SIGNATURE_LABEL + "=" + ParametersText(t.created, t.expires, t.nonce, keyId);
            && other != value
            && ParseSignatureInput(other) == Ok(SignatureMetadata(
                                                  ParametersText(t.created, t.expires, t.nonce, keyId),
                                                  Decimal.Value(t.created), Decimal.Value(t.expires),
                                                  Parse(t.keyId).value))
  {
    OtherTextsAreAccepted(value, t, t.(keyId := keyId));
  }

  /** There is always such a spelling: braces or a URN, whichever the text does not use already. */
  lemma EveryInputHasAnotherSpelling(value: string, t: InputTexts) returns (keyId: string)
    requires InGrammar(value, t)
    ensures keyId != t.keyId && Parse(keyId) == Parse(t.keyId)
    ensures var other := SIGNATURE_LABEL + "=" + ParametersText(t.created, t.expires, t.nonce, keyId);
            other != value && ParseSignatureInput(other).Ok?
  {
    keyId := AnotherSpelling(t.keyId);
    OtherSpellingsAreAccepted(value, t, keyId);
  }

  /**
   * Exactly when printing inverts parsing: an accepted text is what a signer prints for its own parse if and only if
   * neither time has a superfluous leading zero and the key id is 36 characters without capital digits.
   */
  lemma PrintedInputDecision(value: string, t: InputTexts)
    requires InGrammar(value, t)
    ensures ParseSignatureInput(value).Ok?
    ensures var m := ParseSignatureInput(value).value;
            value == SIGNATURE_LABEL + "=" + SignatureParameters(m.created, m.expires, t.nonce, m.keyId) <==>
            && Decimal.CanonicalDigits(t.created)
            && Decimal.CanonicalDigits(t.expires)
            && CanonicalSpelling(t.keyId)
  {
    GrammarIsAccepted(value, t);
    Decimal.CanonicalDigitsDecision(t.created);
    Decimal.CanonicalDigitsDecision(t.expires);
    CanonicalSpellingDecision(t.keyId);
    var m := ParseSignatureInput(value).value;
    var u := InputTexts(Decimal.Text(m.created), Decimal.Text(m.expires), t.nonce, ToText(m.keyId));
    if value == SIGNATURE_LABEL + "=" + SignatureParameters(m.created, m.expires, t.nonce, m.keyId) {
      Decimal.ValueOfNatText(m.created);
      Decimal.ValueOfNatText(m.expires);
      ParseOfToText(m.keyId);
      assert InGrammar(value, u);
      GrammarIsUnambiguous(value, t, u);
    }
  }

  // ---------------------------------------------------------------- the signature header

  const BAD_SIGNATURE := InvalidRequestPart("signature")

  function ParseSignature(value: string): (r: Result<Signature>) {
    var afterLabel :- StripPrefix(value, SIGNATURE_LABEL + "=:").OkOr(BAD_SIGNATURE);
    var encoded :- StripSuffix(afterLabel, ":").OkOr(BAD_SIGNATURE);
    var bytes :- Base64.Decode(Base64.STANDARD, encoded).OkOr(BAD_SIGNATURE);
    if |bytes| == SIGNATURE_LENGTH then Ok(bytes) else Err(BAD_SIGNATURE)
  }

  lemma ParseOfEncodeSignature(signature: Signature)
    ensures ParseSignature(EncodeSignature(signature)) == Ok(signature)
  {
    var encoded := Base64.Encode(Base64.STANDARD, signature);
    assert EncodeSignature(signature) == (SIGNATURE_LABEL + "=:") + (encoded + ":");
    StripPrefixOfJoin(SIGNATURE_LABEL + "=:", encoded + ":");
    StripSuffixOfJoin(encoded, ":");
    Base64.DecodeOfEncode(Base64.STANDARD, signature);
  }

  lemma EncodeOfParseSignature(value: string)
    requires ParseSignature(value).Ok?
    ensures EncodeSignature(ParseSignature(value).value) == value
  {
    var afterLabel := StripPrefix(value, SIGNATURE_LABEL + "=:").value;
    var encoded := StripSuffix(afterLabel, ":").value;
    Base64.EncodeOfDecode(Base64.STANDARD, encoded);
    assert value == (SIGNATURE_LABEL + "=:") + (encoded + ":");
  }

  /** The signature header is a bijection between 64-byte signatures and accepted texts. */
  lemma SignatureHeaderDecision(value: string, signature: Signature)
    ensures ParseSignature(value) == Ok(signature) <==> value == EncodeSignature(signature)
    ensures ParseSignature(value).Err? ==> ParseSignature(value).error == InvalidRequestPart("signature")
  {
    ParseOfEncodeSignature(signature);
    if ParseSignature(value).Ok? {
      EncodeOfParseSignature(value);
    }
  }

  // ---------------------------------------------------------------- freshness

  const CLOCK_SKEW_SECONDS: I64 := 5

  function ValidateSignatureTime(created: I64, expires: I64, now: I64): (r: Result<()>) {
    if now < 0
      || created > SaturatingAdd(now, CLOCK_SKEW_SECONDS)
      || SaturatingAdd(expires, CLOCK_SKEW_SECONDS) < now
    then Err(InvalidRequestPart("freshness"))
    else Ok(())
  }

  /** The acceptance window, in unbounded integers. */
  predicate InWindow(created: int, expires: int, now: int) {
    0 <= now && created - 5 <= now <= expires + 5
  }

  /** Saturation never changes the decision: on all 64-bit numbers the test is the one on unbounded integers. */
  lemma FreshnessDecision(created: int, expires: int, now: int)
    requires -9223372036854775808 <= created <= 9223372036854775807
    requires -9223372036854775808 <= expires <= 9223372036854775807
    requires -9223372036854775808 <= now <= 9223372036854775807
    ensures ValidateSignatureTime(created, expires, now) ==
            if InWindow(created, expires, now) then Ok(()) else Err(InvalidRequestPart("freshness"))
  {
  }

  // ---------------------------------------------------------------- the acceptance decision

  function VerifyIncoming(
    sha: Sha256, check: Checker, request: IncomingRequest, publicKey: ClientPublicKey, now: I64
  ): (r: Result<VerifiedRequest>)
  {
    if request.serviceId != publicKey.serviceId || request.instanceId != publicKey.instanceId then
      Err(InvalidRequestPart("service_id"))
    else
      var metadata :- ParseSignatureInput(request.signatureInput);
      if metadata.keyId != publicKey.keyId then
        Err(InvalidRequestPart("key_id"))
      else
        var _ :- ValidateSignatureTime(metadata.created, metadata.expires, now);
        if ContentDigest(sha, request.parts.body) != request.contentDigest then
          Err(InvalidSignature)
        else
          var signature :- ParseSignature(request.signature);
          var base := SignatureBase(
            request.parts.verb, TargetUri(request.parts), request.contentDigest, request.parts.contentType,
            request.serviceId, request.instanceId, request.parts.requestId, metadata.parameters);
          var _ :- check(publicKey.publicKey, Utf8.Encode(base), signature);
          Ok(VerifiedRequest(
            request.serviceId, request.instanceId, metadata.keyId, request.parts.requestId,
            metadata.created, metadata.expires))
  }

  /** The base an incoming request claims to have been signed over. */
  function IncomingBase(request: IncomingRequest, t: InputTexts): (s: string) {
    SignatureBase(
      request.parts.verb, TargetUri(request.parts), request.contentDigest, request.parts.contentType,
      request.serviceId, request.instanceId, request.parts.requestId,
      ParametersText(t.created, t.expires, t.nonce, t.keyId))
  }

  /** What an accepted request is, read off its header texts and the grammar rather than the parsers. */
  predicate Acceptable(
    sha: Sha256, check: Checker, request: IncomingRequest, publicKey: ClientPublicKey, now: I64,
    t: InputTexts, signature: Signature
  ) {
    && request.serviceId == publicKey.serviceId
    && request.instanceId == publicKey.instanceId
    && InGrammar(request.signatureInput, t)
    && Parse(t.keyId) == Some(publicKey.keyId)
    && InWindow(Decimal.Value(t.created), Decimal.Value(t.expires), now)
    && request.contentDigest == ContentDigest(sha, request.parts.body)
    && request.signature == EncodeSignature(signature)
    && check(publicKey.publicKey, Utf8.Encode(IncomingBase(request, t)), signature).Ok?
  }

  lemma AcceptableIsAccepted(
    sha: Sha256, check: Checker, request: IncomingRequest, publicKey: ClientPublicKey, now: I64,
    t: InputTexts, signature: Signature
  )
    requires Acceptable(sha, check, request, publicKey, now, t, signature)
    ensures VerifyIncoming(sha, check, request, publicKey, now)
         == Ok(VerifiedRequest(publicKey.serviceId, publicKey.instanceId, publicKey.keyId, request.parts.requestId,
                               Decimal.Value(t.created), Decimal.Value(t.expires)))
  {
    GrammarIsAccepted(request.signatureInput, t);
    FreshnessDecision(Decimal.Value(t.created), Decimal.Value(t.expires), now);
    ParseOfEncodeSignature(signature);
  }

  lemma AcceptedIsAcceptable(
    sha: Sha256, check: Checker, request: IncomingRequest, publicKey: ClientPublicKey, now: I64
  ) returns (t: InputTexts, signature: Signature)
    requires VerifyIncoming(sha, check, request, publicKey, now).Ok?
    ensures Acceptable(sha, check, request, publicKey, now, t, signature)
  {
    t := AcceptedIsInGrammar(request.signatureInput);
    GrammarIsAccepted(request.signatureInput, t);
    FreshnessDecision(Decimal.Value(t.created), Decimal.Value(t.expires), now);
    signature := ParseSignature(request.signature).value;
    EncodeOfParseSignature(request.signature);
  }

  /** The acceptance decision: a request verifies exactly when some four texts and signature make it acceptable. */
  lemma AcceptanceDecision(
    sha: Sha256, check: Checker, request: IncomingRequest, publicKey: ClientPublicKey, now: I64
  )
    ensures VerifyIncoming(sha, check, request, publicKey, now).Ok? <==>
            exists t, signature :: Acceptable(sha, check, request, publicKey, now, t, signature)
  {
    if VerifyIncoming(sha, check, request, publicKey, now).Ok? {
      var _, _ := AcceptedIsAcceptable(sha, check, request, publicKey, now);
    } else if t, signature :| Acceptable(sha, check, request, publicKey, now, t, signature) {
      AcceptableIsAccepted(sha, check, request, publicKey, now, t, signature);
    }
  }

  /** The outcome for a request of the right identity whose signature input reads as `t`, check by check. */
  ghost predicate Outcome(
    sha: Sha256, check: Checker, request: IncomingRequest, publicKey: ClientPublicKey, now: I64,
    t: InputTexts, r: Result<VerifiedRequest>
  )
    requires InGrammar(request.signatureInput, t)
  {
    if Parse(t.keyId) != Some(publicKey.keyId) then r == Err(InvalidRequestPart("key_id"))
    else if !InWindow(Decimal.Value(t.created), Decimal.Value(t.expires), now) then
      r == Err(InvalidRequestPart("freshness"))
    else if request.contentDigest != ContentDigest(sha, request.parts.body) then r == Err(InvalidSignature)
    else if !exists signature: Signature :: request.signature == EncodeSignature(signature) then
      r == Err(InvalidRequestPart("signature"))
    else
      forall signature: Signature | request.signature == EncodeSignature(signature) ::
        var checked := check(publicKey.publicKey, Utf8.Encode(IncomingBase(request, t)), signature);
        if checked.Err? then r == Err(checked.error)
        else r.Ok? && r.value.created == Decimal.Value(t.created) && r.value.expires == Decimal.Value(t.expires)
  }

  lemma UnencodedSignatureOutcome(
    sha: Sha256, check: Checker, request: IncomingRequest, publicKey: ClientPublicKey, now: I64, t: InputTexts
  )
    requires request.serviceId == publicKey.serviceId && request.instanceId == publicKey.instanceId
    requires InGrammar(request.signatureInput, t)
    requires !exists signature: Signature :: request.signature == EncodeSignature(signature)
    ensures Outcome(sha, check, request, publicKey, now, t, VerifyIncoming(sha, check, request, publicKey, now))
  {
    GrammarIsAccepted(request.signatureInput, t);
    FreshnessDecision(Decimal.Value(t.created), Decimal.Value(t.expires), now);
    if ParseSignature(request.signature).Ok? {
      EncodeOfParseSignature(request.signature);
    }
  }

  lemma EncodedSignatureOutcome(
    sha: Sha256, check: Checker, request: IncomingRequest, publicKey: ClientPublicKey, now: I64, t: InputTexts,
    signature: Signature
  )
    requires request.serviceId == publicKey.serviceId && request.instanceId == publicKey.instanceId
    requires InGrammar(request.signatureInput, t) && request.signature == EncodeSignature(signature)
    ensures Outcome(sha, check, request, publicKey, now, t, VerifyIncoming(sha, check, request, publicKey, now))
  {
    GrammarIsAccepted(request.signatureInput, t);
    FreshnessDecision(Decimal.Value(t.created), Decimal.Value(t.expires), now);
    ParseOfEncodeSignature(signature);
    forall other: Signature | request.signature == EncodeSignature(other) ensures other == signature {
      ParseOfEncodeSignature(other);
    }
  }

  lemma ReadableInputDecision(
    sha: Sha256, check: Checker, request: IncomingRequest, publicKey: ClientPublicKey, now: I64, t: InputTexts
  )
    requires request.serviceId == publicKey.serviceId && request.instanceId == publicKey.instanceId
    requires InGrammar(request.signatureInput, t)
    ensures Outcome(sha, check, request, publicKey, now, t, VerifyIncoming(sha, check, request, publicKey, now))
  {
    if signature: Signature :| request.signature == EncodeSignature(signature) {
      EncodedSignatureOutcome(sha, check, request, publicKey, now, t, signature);
    } else {
      UnencodedSignatureOutcome(sha, check, request, publicKey, now, t);
    }
  }

  /**
   * The whole decision with its refusals: a wrong identity is reported first, then whatever is wrong with the
   * signature input, then key id, freshness, digest, the form of the signature, and last what checking it says.
   */
  lemma VerificationDecision(
    sha: Sha256, check: Checker, request: IncomingRequest, publicKey: ClientPublicKey, now: I64
  )
    ensures var r := VerifyIncoming(sha, check, request, publicKey, now);
            if request.serviceId != publicKey.serviceId || request.instanceId != publicKey.instanceId then
              r == Err(InvalidRequestPart("service_id"))
            else if exists t :: InGrammar(request.signatureInput, t) then
              forall t | InGrammar(request.signatureInput, t) ::
                Outcome(sha, check, request, publicKey, now, t, r)
            else
              ParseSignatureInput(request.signatureInput).Err?
              && r == Err(ParseSignatureInput(request.signatureInput).error)
  {
    SignatureInputDecision(request.signatureInput);
    if request.serviceId == publicKey.serviceId && request.instanceId == publicKey.instanceId {
      forall t | InGrammar(request.signatureInput, t)
        ensures Outcome(sha, check, request, publicKey, now, t, VerifyIncoming(sha, check, request, publicKey, now))
      {
        ReadableInputDecision(sha, check, request, publicKey, now, t);
      }
    }
  }

  /**
   * One request under one key is accepted over a contiguous interval, always with the same result,
   * and no two accepted times are more than 40 seconds apart.
   */
  lemma AcceptanceLifetime(
    sha: Sha256, check: Checker, request: IncomingRequest, publicKey: ClientPublicKey,
    first: I64, between: I64, last: I64
  )
    requires VerifyIncoming(sha, check, request, publicKey, first).Ok?
    requires VerifyIncoming(sha, check, request, publicKey, last).Ok?
    ensures last - first <= 40
    ensures first <= between <= last
            ==> VerifyIncoming(sha, check, request, publicKey, between)
                == VerifyIncoming(sha, check, request, publicKey, first)
  {
    var t, signature := AcceptedIsAcceptable(sha, check, request, publicKey, first);
    var u, _ := AcceptedIsAcceptable(sha, check, request, publicKey, last);
    GrammarIsUnambiguous(request.signatureInput, t, u);
    if first <= between <= last {
      AcceptableIsAccepted(sha, check, request, publicKey, between, t, signature);
      AcceptableIsAccepted(sha, check, request, publicKey, first, t, signature);
    }
  }
}
