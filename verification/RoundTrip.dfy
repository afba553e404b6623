/** Signing against verifying: what a signer emits, a recipient accepts, for exactly the validity window. */
module RoundTrip {
  import opened Errors
  import opened Int64
  import opened Text
  import opened Uuids
  import opened Credential
  import opened Wire
  import opened Request
  import opened Verify
  import Decimal
  import Utf8

  /** The values carried under a header name. */
  function HeaderValues(headers: seq<(string, string)>, name: string): (values: seq<string>) {
    if headers == [] then []
    else (if headers[0].0 == name then [headers[0].1] else []) + HeaderValues(headers[1..], name)
  }

  /** A header counts only when it appears exactly once. */
  function Header(headers: seq<(string, string)>, name: string): (r: Option<string>) {
    var values := HeaderValues(headers, name);
    if |values| == 1 then Some(values[0]) else None
  }

  lemma {:induction false} HeaderAbsent(headers: seq<(string, string)>, name: string)
    requires forall k | 0 <= k < |headers| :: headers[k].0 != name
    ensures HeaderValues(headers, name) == []
  {
    if headers != [] {
      HeaderAbsent(headers[1..], name);
    }
  }

  lemma {:induction false} HeaderAt(headers: seq<(string, string)>, at: nat)
    requires at < |headers|
    requires forall k | 0 <= k < |headers| && k != at :: headers[k].0 != headers[at].0
    ensures Header(headers, headers[at].0) == Some(headers[at].1)
  {
    if at == 0 {
      HeaderAbsent(headers[1..], headers[0].0);
    } else {
      assert forall k | 0 <= k < |headers| - 1 :: headers[1..][k] == headers[k + 1];
      HeaderAt(headers[1..], at - 1);
    }
  }

  predicate DistinctNames(headers: seq<(string, string)>) {
    forall j, k | 0 <= j < k < |headers| :: headers[j].0 != headers[k].0
  }

  /** A recipient rebuilds the request from the request line, the authority, the body and the seven headers. */
  function Receive(
    verb: string, authority: string, pathAndQuery: string, body: seq<byte>, headers: seq<(string, string)>
  ): (r: Result<IncomingRequest>)
  {
    var contentType :- Header(headers, "Content-Type").OkOr(InvalidRequestPart("content_type"));
    var contentDigest :- Header(headers, "Content-Digest").OkOr(InvalidRequestPart("content_digest"));
    var serviceId :- Header(headers, "Infernal-Service-Id").OkOr(InvalidRequestPart("service_id"));
    var instanceId :- Header(headers, "Infernal-Instance-Id").OkOr(InvalidRequestPart("instance_id"));
    var requestIdText :- Header(headers, "Infernal-Request-Id").OkOr(InvalidRequestPart("request_id"));
    var signatureInput :- Header(headers, "Signature-Input").OkOr(InvalidRequestPart("signature_input"));
    var signature :- Header(headers, "Signature").OkOr(InvalidRequestPart("signature"));
    var requestId :- Parse(requestIdText).OkOr(InvalidRequestPart("request_id"));
    var parts :- NewRequestParts(verb, authority, pathAndQuery, contentType, body, requestId);
    FromWire(parts, serviceId, instanceId, contentDigest, signatureInput, signature)
  }

  /** The incoming request that carries a signed request's values unchanged. */
  function Delivered(signed: SignedRequest): (request: IncomingRequest) {
    IncomingRequest(
      signed.parts, signed.serviceId, signed.instanceId,
      signed.contentDigest, signed.signatureInput, signed.signature)
  }

  /** The same request with another body. */
  function WithBody(request: IncomingRequest, body: seq<byte>): (r: IncomingRequest) {
    request.(parts := request.parts.(body := body))
  }

  lemma HeadersAreDistinct(signed: SignedRequest)
    ensures DistinctNames(Headers(signed))
  {
  }

  lemma HeaderLookups(signed: SignedRequest)
    ensures var h := Headers(signed);
            && Header(h, "Content-Type") == Some(signed.parts.contentType)
            && Header(h, "Content-Digest") == Some(signed.contentDigest)
            && Header(h, "Infernal-Service-Id") == Some(ToText(signed.serviceId))
            && Header(h, "Infernal-Instance-Id") == Some(ToText(signed.instanceId))
            && Header(h, "Infernal-Request-Id") == Some(ToText(signed.parts.requestId))
            && Header(h, "Signature-Input") == Some(signed.signatureInput)
            && Header(h, "Signature") == Some(signed.signature)
  {
    HeadersAreDistinct(signed);
    var h := Headers(signed);
    assert forall j, k | 0 <= j < |h| && 0 <= k < |h| && j != k :: h[j].0 != h[k].0;
    HeaderAt(h, 0);
    HeaderAt(h, 1);
    HeaderAt(h, 2);
    HeaderAt(h, 3);
    HeaderAt(h, 4);
    HeaderAt(h, 5);
    HeaderAt(h, 6);
  }

  /** The header set names each header once and loses nothing: the recipient rebuilds exactly the signed values. */
  lemma HeadersCarryTheRequest(signed: SignedRequest)
    ensures |Headers(signed)| == 7 && DistinctNames(Headers(signed))
    ensures Receive(signed.parts.verb, signed.parts.authority, signed.parts.pathAndQuery, signed.parts.body,
                    Headers(signed))
         == Ok(Delivered(signed))
  {
    HeadersAreDistinct(signed);
    HeaderLookups(signed);
    ParseOfToText(signed.serviceId);
    ParseOfToText(signed.instanceId);
    ParseOfToText(signed.parts.requestId);
    var p := signed.parts;
    NewRequestPartsDecision(p.verb, p.authority, p.pathAndQuery, p.contentType, p.body, p.requestId);
  }

  /** The signer's own texts for the four variable parts of its signature input. */
  function SignerTexts(created: I64, expires: I64, nonce: string, keyId: Uuid): (t: InputTexts) {
    InputTexts(Decimal.Text(created), Decimal.Text(expires), nonce, ToText(keyId))
  }

  lemma SignerTextsAreInGrammar(created: I64, expires: I64, nonce: string, keyId: Uuid)
    requires ValidateSignatureMetadata(created, expires, nonce).Ok?
    ensures var t := SignerTexts(created, expires, nonce, keyId);
            && InGrammar(SIGNATURE_LABEL + "=" + SignatureParameters(created, expires, nonce, keyId), t)
            && Parse(t.keyId) == Some(keyId)
            && Decimal.Value(t.created) == created && Decimal.Value(t.expires) == expires
  {
    MetadataDecision(created, expires, nonce);
    Decimal.ValueOfNatText(created);
    Decimal.ValueOfNatText(expires);
    ParseOfToText(keyId);
  }

  /**
   * Sign-then-verify, with the body as received: any body with the signed digest verifies for exactly the window,
   * to exactly the signer's values; outside the window the error is freshness.
   */
  lemma SignedThenVerified(
    sha: Sha256, check: Checker, parts: RequestParts, publicKey: ClientPublicKey,
    created: I64, expires: I64, nonce: string, signer: seq<byte> -> Signature,
    body: seq<byte>, now: I64
  )
    requires SignWith(sha, parts, publicKey, created, expires, nonce, signer).Ok?
    requires sha(body) == sha(parts.body)
    requires var message := MessageToSign(sha, parts, publicKey, created, expires, nonce);
             check(publicKey.publicKey, message, signer(message)).Ok?
    ensures var signed := SignWith(sha, parts, publicKey, created, expires, nonce, signer).value;
            VerifyIncoming(sha, check, WithBody(Delivered(signed), body), publicKey, now)
            == if InWindow(created, expires, now)
               then Ok(VerifiedRequest(publicKey.serviceId, publicKey.instanceId, publicKey.keyId,
                                       parts.requestId, created, expires))
               else Err(InvalidRequestPart("freshness"))
  {
    var signed := SignWith(sha, parts, publicKey, created, expires, nonce, signer).value;
    var request := WithBody(Delivered(signed), body);
    var message := MessageToSign(sha, parts, publicKey, created, expires, nonce);
    var t := SignerTexts(created, expires, nonce, publicKey.keyId);
    SignerTextsAreInGrammar(created, expires, nonce, publicKey.keyId);
    ContentDigestDeterminesTheHash(sha, body, parts.body);
    ParseOfSignatureParameters(created, expires, nonce, publicKey.keyId);
    FreshnessDecision(created, expires, now);
    if InWindow(created, expires, now) {
      assert TargetUri(request.parts) == TargetUri(parts);
      assert message == Utf8.Encode(IncomingBase(request, t));
      AcceptableIsAccepted(sha, check, request, publicKey, now, t, signer(message));
    }
  }

  /**
   * Sign-then-verify end to end: the headers of a signed request reach the recipient as the request they were
   * made from, and it verifies if and only if the clock is within the window widened by five seconds on each side.
   */
  lemma SignThenVerifyIsExact(
    sha: Sha256, check: Checker, parts: RequestParts, publicKey: ClientPublicKey,
    created: I64, expires: I64, nonce: string, signer: seq<byte> -> Signature, now: I64
  )
    requires SignWith(sha, parts, publicKey, created, expires, nonce, signer).Ok?
    requires forall message :: check(publicKey.publicKey, message, signer(message)).Ok?
    ensures var signed := SignWith(sha, parts, publicKey, created, expires, nonce, signer).value;
            var received := Receive(parts.verb, parts.authority, parts.pathAndQuery, parts.body, Headers(signed));
            && received.Ok?
            && VerifyIncoming(sha, check, received.value, publicKey, now)
               == if InWindow(created, expires, now)
                  then Ok(VerifiedRequest(publicKey.serviceId, publicKey.instanceId, publicKey.keyId,
                                          parts.requestId, created, expires))
                  else Err(InvalidRequestPart("freshness"))
  {
    var signed := SignWith(sha, parts, publicKey, created, expires, nonce, signer).value;
    HeadersCarryTheRequest(signed);
    SignedThenVerified(sha, check, parts, publicKey, created, expires, nonce, signer, parts.body, now);
    assert WithBody(Delivered(signed), parts.body) == Delivered(signed);
  }

  /** A body whose digest differs from the signed one is refused as an invalid signature, whatever the checker says. */
  lemma AlteredBodyIsRefused(
    sha: Sha256, check: Checker, parts: RequestParts, publicKey: ClientPublicKey,
    created: I64, expires: I64, nonce: string, signer: seq<byte> -> Signature,
    body: seq<byte>, now: I64
  )
    requires SignWith(sha, parts, publicKey, created, expires, nonce, signer).Ok?
    requires sha(body) != sha(parts.body) && InWindow(created, expires, now)
    ensures var signed := SignWith(sha, parts, publicKey, created, expires, nonce, signer).value;
            VerifyIncoming(sha, check, WithBody(Delivered(signed), body), publicKey, now) == Err(InvalidSignature)
  {
    ParseOfSignatureParameters(created, expires, nonce, publicKey.keyId);
    FreshnessDecision(created, expires, now);
    ContentDigestDeterminesTheHash(sha, body, parts.body);
  }

  lemma WrongIdentity(sha: Sha256, check: Checker, request: IncomingRequest, other: ClientPublicKey, now: I64)
    requires (other.serviceId, other.instanceId) != (request.serviceId, request.instanceId)
    ensures VerifyIncoming(sha, check, request, other, now) == Err(InvalidRequestPart("service_id"))
  {
  }

  lemma WrongKeyId(sha: Sha256, check: Checker, request: IncomingRequest, other: ClientPublicKey, now: I64)
    requires (other.serviceId, other.instanceId) == (request.serviceId, request.instanceId)
    requires ParseSignatureInput(request.signatureInput).Ok?
    requires ParseSignatureInput(request.signatureInput).value.keyId != other.keyId
    ensures VerifyIncoming(sha, check, request, other, now) == Err(InvalidRequestPart("key_id"))
  {
  }

  /** A signed request presented under another identity is refused at once, and under another key id next. */
  lemma WrongKeyIsRefused(
    sha: Sha256, check: Checker, parts: RequestParts, publicKey: ClientPublicKey,
    created: I64, expires: I64, nonce: string, signer: seq<byte> -> Signature,
    other: ClientPublicKey, now: I64
  )
    requires SignWith(sha, parts, publicKey, created, expires, nonce, signer).Ok?
    requires other.(publicKey := publicKey.publicKey) != publicKey
    ensures var signed := SignWith(sha, parts, publicKey, created, expires, nonce, signer).value;
            VerifyIncoming(sha, check, Delivered(signed), other, now)
            == Err(InvalidRequestPart(
                     if (other.serviceId, other.instanceId) != (publicKey.serviceId, publicKey.instanceId)
                     then "service_id" else "key_id"))
  {
    var signed := SignWith(sha, parts, publicKey, created, expires, nonce, signer).value;
    ParseOfSignatureParameters(created, expires, nonce, publicKey.keyId);
    if (other.serviceId, other.instanceId) != (publicKey.serviceId, publicKey.instanceId) {
      WrongIdentity(sha, check, Delivered(signed), other, now);
    } else {
      WrongKeyId(sha, check, Delivered(signed), other, now);
    }
  }
}
