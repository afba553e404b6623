/** Construction and signing of requests. */
module Request {
  import opened Errors
  import opened Int64
  import opened Text
  import opened Uuids
  import opened Credential
  import opened Wire
  import Base64
  import Decimal
  import Utf8

  datatype RequestFields = RequestFields(
    verb: string,
    authority: string,
    pathAndQuery: string,
    contentType: string,
    body: seq<byte>,
    requestId: Uuid
  )

  predicate VerbText(s: string) {
    s != "" && forall c | c in s :: 'A' <= c <= 'Z'
  }

  predicate AuthorityText(s: string) {
    s != "" && forall c | c in s :: Visible(c) && c !in "/@?#"
  }

  predicate PathText(s: string) {
    s != "" && s[0] == '/' && forall c | c in s :: Visible(c) && c != '#'
  }

  predicate ContentTypeText(s: string) {
    s != "" && s[0] != ' ' && s[|s| - 1] != ' ' && forall c | c in s :: Printable(c)
  }

  predicate ValidFields(f: RequestFields) {
    VerbText(f.verb) && AuthorityText(f.authority) && PathText(f.pathAndQuery) && ContentTypeText(f.contentType)
  }

  /** The fields are private: every value in circulation came through the validating constructor. */
  type RequestParts = f: RequestFields | ValidFields(f)
    witness RequestFields("GET", "a", "/", "a", [], seq(16, _ => 0))

  predicate IsUpperByte(b: byte) {
    'A' as int <= b <= 'Z' as int
  }

  predicate IsReservedByte(b: byte) {
    b == '/' as int || b == '@' as int || b == '?' as int || b == '#' as int
  }

  function NewRequestParts(
    verb: string, authority: string, pathAndQuery: string, contentType: string, body: seq<byte>, requestId: Uuid
  ): (r: Result<RequestParts>)
  {
    if verb == "" || !Utf8.AllBytes(verb, IsUpperByte) then
      Err(InvalidRequestPart("method"))
    else if !ValidUriValue(authority) || exists b | b in Utf8.Encode(authority) :: IsReservedByte(b) then
      Err(InvalidRequestPart("authority"))
    else if !([ '/' ] <= pathAndQuery) || '#' in pathAndQuery || !ValidUriValue(pathAndQuery) then
      Err(InvalidRequestPart("path_and_query"))
    else if !ValidHeaderValue(contentType) then
      Err(InvalidRequestPart("content_type"))
    else
      VerbDecision(verb);
      AuthorityDecision(authority);
      UriValueDecision(pathAndQuery);
      HeaderValueDecision(contentType);
      Ok(RequestFields(verb, authority, pathAndQuery, contentType, body, requestId))
  }

  lemma VerbDecision(s: string)
    ensures s != "" && Utf8.AllBytes(s, IsUpperByte) <==> VerbText(s)
  {
    Utf8.AsciiTest(s, IsUpperByte);
    assert Utf8.AllAscii(s, IsUpperByte) <==> forall c | c in s :: 'A' <= c <= 'Z';
  }

  lemma AuthorityDecision(s: string)
    ensures ValidUriValue(s) && !(exists b | b in Utf8.Encode(s) :: IsReservedByte(b)) <==> AuthorityText(s)
  {
    var visible: byte -> bool := b => 0x21 <= b <= 0x7e;
    var test: byte -> bool := b => 0x21 <= b <= 0x7e && !IsReservedByte(b);
    Utf8.AsciiTest(s, test);
    assert Utf8.AllBytes(s, test) <==>
           Utf8.AllBytes(s, visible) && !(exists b | b in Utf8.Encode(s) :: IsReservedByte(b));
    assert Utf8.AllAscii(s, test) <==> forall c | c in s :: Visible(c) && c !in "/@?#";
  }

  /** Construction succeeds exactly on well-formed fields and keeps them; the first bad field names the error. */
  lemma NewRequestPartsDecision(
    verb: string, authority: string, pathAndQuery: string, contentType: string, body: seq<byte>, requestId: Uuid
  )
    ensures NewRequestParts(verb, authority, pathAndQuery, contentType, body, requestId) ==
            if !VerbText(verb) then Err(InvalidRequestPart("method"))
            else if !AuthorityText(authority) then Err(InvalidRequestPart("authority"))
            else if !PathText(pathAndQuery) then Err(InvalidRequestPart("path_and_query"))
            else if !ContentTypeText(contentType) then Err(InvalidRequestPart("content_type"))
            else Ok(RequestFields(verb, authority, pathAndQuery, contentType, body, requestId))
  {
    VerbDecision(verb);
    AuthorityDecision(authority);
    UriValueDecision(pathAndQuery);
    HeaderValueDecision(contentType);
  }

  function TargetUri(parts: RequestParts): (s: string) {
    "https://" + parts.authority + parts.pathAndQuery
  }

  /** Authority and path read back from a target URI. */
  function SplitUri(uri: string): (r: Option<(string, string)>) {
    var rest :- StripPrefix(uri, "https://");
    var (authority, path) :- SplitOnce(rest, "/");
    Some((authority, "/" + path))
  }

  lemma SplitUriOfTargetUri(p: RequestParts)
    ensures SplitUri(TargetUri(p)) == Some((p.authority, p.pathAndQuery))
  {
    var rest := p.authority + p.pathAndQuery;
    assert TargetUri(p) == "https://" + rest;
    StripPrefixOfJoin("https://", rest);
    assert '/' !in p.authority;
    assert p.pathAndQuery == "/" + p.pathAndQuery[1..];
    SplitOnceOfJoin(p.authority, "/", p.pathAndQuery[1..]);
  }

  /** The target URI loses nothing: it determines the authority and the path. */
  lemma TargetUriIsInjective(p: RequestParts, q: RequestParts)
    requires TargetUri(p) == TargetUri(q)
    ensures p.authority == q.authority && p.pathAndQuery == q.pathAndQuery
  {
    SplitUriOfTargetUri(p);
    SplitUriOfTargetUri(q);
  }

  lemma PartsAreSingleLines(p: RequestParts)
    ensures OneLine(p.verb) && OneLine(TargetUri(p)) && OneLine(p.contentType)
  {
  }

  datatype SignedRequest = SignedRequest(
    parts: RequestParts,
    serviceId: Uuid,
    instanceId: Uuid,
    contentDigest: string,
    signatureInput: string,
    signature: string
  )

  /** The bytes handed to the signer: the signature base over the parts, the key's identity and the parameters. */
  function MessageToSign(
    sha: Sha256, parts: RequestParts, publicKey: ClientPublicKey, created: I64, expires: I64, nonce: string
  ): (message: seq<byte>)
  {
    Utf8.Encode(SignatureBase(
      parts.verb, TargetUri(parts), ContentDigest(sha, parts.body), parts.contentType,
      publicKey.serviceId, publicKey.instanceId, parts.requestId,
      SignatureParameters(created, expires, nonce, publicKey.keyId)))
  }

  /** Signs with a key the caller holds. */
  function SignWith(
    sha: Sha256, parts: RequestParts, publicKey: ClientPublicKey, created: I64, expires: I64, nonce: string,
    signer: seq<byte> -> Signature
  ): (r: Result<SignedRequest>)
  {
    var _ :- ValidateSignatureMetadata(created, expires, nonce);
    var signature := signer(MessageToSign(sha, parts, publicKey, created, expires, nonce));
    Ok(SignedRequest(
      parts, publicKey.serviceId, publicKey.instanceId, ContentDigest(sha, parts.body),
      SIGNATURE_LABEL + "=" + SignatureParameters(created, expires, nonce, publicKey.keyId),
      EncodeSignature(signature)))
  }

  /**
   * Signing succeeds exactly for a valid window and nonce, the first failure names the error, and the signer is asked
   * about the base and nothing else.
   */
  lemma SignWithDecision(
    sha: Sha256, parts: RequestParts, publicKey: ClientPublicKey, created: I64, expires: I64, nonce: string,
    signer: seq<byte> -> Signature, signer': seq<byte> -> Signature
  )
    ensures var r := SignWith(sha, parts, publicKey, created, expires, nonce, signer);
            if created < 0 then r == Err(InvalidRequestPart("created"))
            else if !ValidWindow(created, expires) then r == Err(InvalidRequestPart("expires"))
            else if !NonceText(nonce) then r == Err(InvalidRequestPart("nonce"))
            else r.Ok? && r.value.parts == parts
    ensures var message := MessageToSign(sha, parts, publicKey, created, expires, nonce);
            signer(message) == signer'(message)
            ==> SignWith(sha, parts, publicKey, created, expires, nonce, signer)
                == SignWith(sha, parts, publicKey, created, expires, nonce, signer')
  {
    MetadataDecision(created, expires, nonce);
  }

  function Headers(signed: SignedRequest): (h: seq<(string, string)>) {
    [ ("Content-Type", signed.parts.contentType),
      ("Content-Digest", signed.contentDigest),
      ("Infernal-Service-Id", ToText(signed.serviceId)),
      ("Infernal-Instance-Id", ToText(signed.instanceId)),
      ("Infernal-Request-Id", ToText(signed.parts.requestId)),
      ("Signature-Input", signed.signatureInput),
      ("Signature", signed.signature) ]
  }

  /** Fills a 24-byte buffer from the random source and encodes it; a failing source is reported, never replaced. */
  method GenerateNonce(random: Option<seq<byte>>) returns (r: Result<string>)
    requires random.Some? ==> |random.value| == 24
    ensures random.None? ==> r == Err(RandomSource)
    ensures random.Some? ==> r.Ok? && NonceText(r.value) && |r.value| == 32
    ensures random.Some? ==> Base64.Decode(Base64.URL_SAFE_NO_PAD, r.value) == Some(random.value)
  {
    var bytes := new byte[24](_ => 0);
    if random.None? {
      return Err(RandomSource);
    }
    forall i | 0 <= i < 24 {
      bytes[i] := random.value[i];
    }
    assert bytes[..] == random.value;
    EncodedNonceIsUsable(bytes[..]);
    return Ok(Base64.Encode(Base64.URL_SAFE_NO_PAD, bytes[..]));
  }

  /** Any 24 bytes encode to a nonce that signing accepts, and the nonce determines the bytes. */
  lemma EncodedNonceIsUsable(bytes: seq<byte>)
    requires |bytes| == 24
    ensures var nonce := Base64.Encode(Base64.URL_SAFE_NO_PAD, bytes);
            && |nonce| == 32 && NonceText(nonce)
            && Base64.Decode(Base64.URL_SAFE_NO_PAD, nonce) == Some(bytes)
            && forall created: I64, expires: I64 | ValidWindow(created, expires) ::
                 ValidateSignatureMetadata(created, expires, nonce).Ok?
  {
    var nonce := Base64.Encode(Base64.URL_SAFE_NO_PAD, bytes);
    Base64.EncodeChars(Base64.URL_SAFE_NO_PAD, bytes);
    Base64.EncodePadding(Base64.URL_SAFE_NO_PAD, bytes);
    Base64.DecodeOfEncode(Base64.URL_SAFE_NO_PAD, bytes);
    forall created: I64, expires: I64 | ValidWindow(created, expires)
      ensures ValidateSignatureMetadata(created, expires, nonce).Ok?
    {
      MetadataDecision(created, expires, nonce);
    }
  }
}
