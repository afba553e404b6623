/** The wire-format primitives shared by signing and verification: printers, validators and their meaning. */
module Wire {
  import opened Errors
  import opened Int64
  import opened Text
  import opened Uuids
  import opened Credential
  import Base64
  import Decimal
  import Utf8

  const SIGNATURE_LABEL := "sig1"
  const SIGNATURE_VALIDITY_SECONDS: I64 := 30
  const MIN_NONCE_LENGTH: nat := 16
  const MAX_NONCE_LENGTH: nat := 128

  /** The component list, in the form of section 2.5 of RFC 9421. */
  const COVERED_COMPONENTS :=
    "(\"@method\" " + "\"@target-uri\" " + "\"content-digest\" " + "\"content-type\" "
    + "\"infernal-service-id\" " + "\"infernal-instance-id\" " + "\"infernal-request-id\")"

  /** The signature parameters written from the text of their four values. */
  function ParametersText(created: string, expires: string, nonce: string, keyId: string): (s: string) {
    COVERED_COMPONENTS + (";created=" + (created + (";expires=" + (expires
    + (";nonce=\"" + (nonce + ("\";keyid=\"" + (keyId + ("\";alg=\"" + "ed25519\"")))))))))
  }

  function SignatureParameters(created: I64, expires: I64, nonce: string, keyId: Uuid): (s: string) {
    ParametersText(Decimal.Text(created), Decimal.Text(expires), nonce, ToText(keyId))
  }

  /** The values of the eight lines of a signature base. */
  datatype BaseLines = BaseLines(
    verb: string,
    targetUri: string,
    digest: string,
    contentType: string,
    serviceId: string,
    instanceId: string,
    requestId: string,
    parameters: string
  )

  /** One `"name": value` line a component, then the parameters. */
  function BaseText(b: BaseLines): (s: string) {
    "\"@method\": " + (b.verb + ("\n"
    + ("\"@target-uri\": " + (b.targetUri + ("\n"
    + ("\"content-digest\": " + (b.digest + ("\n"
    + ("\"content-type\": " + (b.contentType + ("\n"
    + ("\"infernal-service-id\": " + (b.serviceId + ("\n"
    + ("\"infernal-instance-id\": " + (b.instanceId + ("\n"
    + ("\"infernal-request-id\": " + (b.requestId + ("\n"
    + ("\"@signature-params\": " + b.parameters)))))))))))))))))))))
  }

  function SignatureBase(
    verb: string, targetUri: string, digest: string, contentType: string,
    serviceId: Uuid, instanceId: Uuid, requestId: Uuid, parameters: string
  ): (s: string) {
    BaseText(BaseLines(verb, targetUri, digest, contentType,
                       ToText(serviceId), ToText(instanceId), ToText(requestId), parameters))
  }

  function ContentDigest(sha: Sha256, body: seq<byte>): (s: string) {
    "sha-256=:" + Base64.Encode(Base64.STANDARD, sha(body)) + ":"
  }

  function ValidateSignatureMetadata(created: I64, expires: I64, nonce: string): (r: Result<()>) {
    if created < 0 then
      Err(InvalidRequestPart("created"))
    else if expires <= created || WrappingSub(expires, created) > SIGNATURE_VALIDITY_SECONDS then
      Err(InvalidRequestPart("expires"))
    else if !(MIN_NONCE_LENGTH <= |Utf8.Encode(nonce)| <= MAX_NONCE_LENGTH) || !Utf8.AllBytes(nonce, IsNonceByte) then
      Err(InvalidRequestPart("nonce"))
    else
      Ok(())
  }

  predicate IsNonceByte(b: byte) {
    || 'a' as int <= b <= 'z' as int || 'A' as int <= b <= 'Z' as int || '0' as int <= b <= '9' as int
    || b == '-' as int || b == '_' as int
  }

  predicate ValidHeaderValue(value: string) {
    value != "" && Trim(value) == value && Utf8.AllBytes(value, b => 0x20 <= b <= 0x7e)
  }

  predicate ValidUriValue(value: string) {
    value != "" && Utf8.AllBytes(value, b => 0x21 <= b <= 0x7e)
  }

  function EncodeSignature(signature: seq<byte>): (s: string) {
    SIGNATURE_LABEL + "=:" + Base64.Encode(Base64.STANDARD, signature) + ":"
  }

  // ---------------------------------------------------------------- the validators, on characters

  predicate IsNonceChar(c: char) {
    'a' <= c <= 'z' || 'A' <= c <= 'Z' || '0' <= c <= '9' || c == '-' || c == '_'
  }

  predicate NonceText(nonce: string) {
    16 <= |nonce| <= 128 && forall c | c in nonce :: IsNonceChar(c)
  }

  /** The validity window, in unbounded integers. */
  predicate ValidWindow(created: int, expires: int) {
    0 <= created < expires <= created + 30
  }

  /** Validation decides window and nonce exactly, over all of i64; the subtraction never wraps where it is evaluated. */
  lemma MetadataDecision(created: I64, expires: I64, nonce: string)
    ensures ValidateSignatureMetadata(created, expires, nonce) ==
            if created < 0 then Err(InvalidRequestPart("created"))
            else if !ValidWindow(created, expires) then Err(InvalidRequestPart("expires"))
            else if !NonceText(nonce) then Err(InvalidRequestPart("nonce"))
            else Ok(())
    ensures 0 <= created < expires ==> WrappingSub(expires, created) == expires - created
  {
    Utf8.AsciiTest(nonce, IsNonceByte);
    assert Utf8.AllAscii(nonce, IsNonceByte) <==> forall c | c in nonce :: IsNonceChar(c);
    if Utf8.AllAscii(nonce, IsNonceByte) {
      assert |Utf8.Encode(nonce)| == |nonce|;
    }
  }

  predicate Printable(c: char) {
    '\U{0020}' <= c <= '\U{007e}'
  }

  predicate Visible(c: char) {
    '\U{0021}' <= c <= '\U{007e}'
  }

  /** A header value is printable ASCII that neither starts nor ends with a space. */
  lemma HeaderValueDecision(value: string)
    ensures ValidHeaderValue(value) <==>
            && value != "" && (forall c | c in value :: Printable(c))
            && value[0] != ' ' && value[|value| - 1] != ' '
  {
    var test: byte -> bool := b => 0x20 <= b <= 0x7e;
    Utf8.AsciiTest(value, test);
    assert Utf8.AllAscii(value, test) <==> forall c | c in value :: Printable(c);
    var before, after := TrimSplits(value);
    if value != "" && forall c | c in value :: Printable(c) {
      assert value[0] in value && value[|value| - 1] in value;
      assert Trimmed(value) <==> value[0] != ' ' && value[|value| - 1] != ' ';
      if Trimmed(value) {
        assert "" + value + "" == value;
        TrimIsTheTrimmedCore("", value, "");
      }
    }
  }

  lemma UriValueDecision(value: string)
    ensures ValidUriValue(value) <==> value != "" && forall c | c in value :: Visible(c)
  {
    var test: byte -> bool := b => 0x21 <= b <= 0x7e;
    Utf8.AsciiTest(value, test);
    assert Utf8.AllAscii(value, test) <==> forall c | c in value :: Visible(c);
  }

  // ---------------------------------------------------------------- recovering the signature base

  predicate OneLine(s: string) {
    '\n' !in s
  }

  function TakeLine(s: string, name: string): (r: Option<(string, string)>) {
    var rest :- StripPrefix(s, name);
    SplitOnce(rest, "\n")
  }

  /** Reads the eight values back out of a signature base. */
  function DecodeBase(s: string): (r: Option<BaseLines>) {
    var (verb, s) :- TakeLine(s, "\"@method\": ");
    var (targetUri, s) :- TakeLine(s, "\"@target-uri\": ");
    var (digest, s) :- TakeLine(s, "\"content-digest\": ");
    var (contentType, s) :- TakeLine(s, "\"content-type\": ");
    var (serviceId, s) :- TakeLine(s, "\"infernal-service-id\": ");
    var (instanceId, s) :- TakeLine(s, "\"infernal-instance-id\": ");
    var (requestId, s) :- TakeLine(s, "\"infernal-request-id\": ");
    var parameters :- StripPrefix(s, "\"@signature-params\": ");
    Some(BaseLines(verb, targetUri, digest, contentType, serviceId, instanceId, requestId, parameters))
  }

  lemma TakeLineOfJoin(name: string, value: string, rest: string)
    requires OneLine(value)
    ensures TakeLine(name + (value + ("\n" + rest)), name) == Some((value, rest))
  {
    StripPrefixOfJoin(name, value + ("\n" + rest));
    SplitOnceOfJoin(value, "\n", rest);
  }

  lemma JoinOfTakeLine(s: string, name: string)
    requires TakeLine(s, name).Some?
    ensures s == name + (TakeLine(s, name).value.0 + ("\n" + TakeLine(s, name).value.1))
    ensures OneLine(TakeLine(s, name).value.0)
  {
    var rest := StripPrefix(s, name).value;
    var (value, tail) := TakeLine(s, name).value;
    forall k | 0 <= k < |value| ensures value[k] != '\n' {
      assert !OccursAt(rest, "\n", k);
      assert rest[k..k + 1] == [value[k]];
    }
  }

  /** Every component but the last stays on its own line. */
  predicate Lines(b: BaseLines) {
    && OneLine(b.verb) && OneLine(b.targetUri) && OneLine(b.digest) && OneLine(b.contentType)
    && OneLine(b.serviceId) && OneLine(b.instanceId) && OneLine(b.requestId)
  }

  /** The decoder inverts the printer whenever the components are single lines. */
  lemma DecodeOfBase(b: BaseLines)
    requires Lines(b)
    ensures DecodeBase(BaseText(b)) == Some(b)
  {
    var s7 := "\"@signature-params\": " + b.parameters;
    var s6 := "\"infernal-request-id\": " + (b.requestId + ("\n" + s7));
    var s5 := "\"infernal-instance-id\": " + (b.instanceId + ("\n" + s6));
    var s4 := "\"infernal-service-id\": " + (b.serviceId + ("\n" + s5));
    var s3 := "\"content-type\": " + (b.contentType + ("\n" + s4));
    var s2 := "\"content-digest\": " + (b.digest + ("\n" + s3));
    var s1 := "\"@target-uri\": " + (b.targetUri + ("\n" + s2));
    TakeLineOfJoin("\"@method\": ", b.verb, s1);
    TakeLineOfJoin("\"@target-uri\": ", b.targetUri, s2);
    TakeLineOfJoin("\"content-digest\": ", b.digest, s3);
    TakeLineOfJoin("\"content-type\": ", b.contentType, s4);
    TakeLineOfJoin("\"infernal-service-id\": ", b.serviceId, s5);
    TakeLineOfJoin("\"infernal-instance-id\": ", b.instanceId, s6);
    TakeLineOfJoin("\"infernal-request-id\": ", b.requestId, s7);
    StripPrefixOfJoin("\"@signature-params\": ", b.parameters);
  }

  /** Conversely, whatever the decoder reads is the base of what it read. */
  lemma BaseOfDecode(s: string)
    requires DecodeBase(s).Some?
    ensures BaseText(DecodeBase(s).value) == s && Lines(DecodeBase(s).value)
  {
    JoinOfTakeLine(s, "\"@method\": ");
    var s1 := TakeLine(s, "\"@method\": ").value.1;
    JoinOfTakeLine(s1, "\"@target-uri\": ");
    var s2 := TakeLine(s1, "\"@target-uri\": ").value.1;
    JoinOfTakeLine(s2, "\"content-digest\": ");
    var s3 := TakeLine(s2, "\"content-digest\": ").value.1;
    JoinOfTakeLine(s3, "\"content-type\": ");
    var s4 := TakeLine(s3, "\"content-type\": ").value.1;
    JoinOfTakeLine(s4, "\"infernal-service-id\": ");
    var s5 := TakeLine(s4, "\"infernal-service-id\": ").value.1;
    JoinOfTakeLine(s5, "\"infernal-instance-id\": ");
    var s6 := TakeLine(s5, "\"infernal-instance-id\": ").value.1;
    JoinOfTakeLine(s6, "\"infernal-request-id\": ");
  }

  /** A base determines all eight components when the four texts among the first seven are single lines. */
  lemma SignatureBaseIsInjective(
    verb: string, targetUri: string, digest: string, contentType: string,
    serviceId: Uuid, instanceId: Uuid, requestId: Uuid, parameters: string,
    verb': string, targetUri': string, digest': string, contentType': string,
    serviceId': Uuid, instanceId': Uuid, requestId': Uuid, parameters': string
  )
    requires OneLine(verb) && OneLine(targetUri) && OneLine(digest) && OneLine(contentType)
    requires OneLine(verb') && OneLine(targetUri') && OneLine(digest') && OneLine(contentType')
    requires SignatureBase(verb, targetUri, digest, contentType, serviceId, instanceId, requestId, parameters)
          == SignatureBase(verb', targetUri', digest', contentType', serviceId', instanceId', requestId', parameters')
    ensures verb == verb' && targetUri == targetUri' && digest == digest' && contentType == contentType'
    ensures serviceId == serviceId' && instanceId == instanceId' && requestId == requestId'
    ensures parameters == parameters'
  {
    UuidTextIsOneLine(serviceId);
    UuidTextIsOneLine(instanceId);
    UuidTextIsOneLine(requestId);
    UuidTextIsOneLine(serviceId');
    UuidTextIsOneLine(instanceId');
    UuidTextIsOneLine(requestId');
    DecodeOfBase(BaseLines(verb, targetUri, digest, contentType,
                           ToText(serviceId), ToText(instanceId), ToText(requestId), parameters));
    DecodeOfBase(BaseLines(verb', targetUri', digest', contentType',
                           ToText(serviceId'), ToText(instanceId'), ToText(requestId'), parameters'));
    ToTextIsInjective(serviceId, serviceId');
    ToTextIsInjective(instanceId, instanceId');
    ToTextIsInjective(requestId, requestId');
  }

  lemma UuidTextIsOneLine(id: Uuid)
    ensures OneLine(ToText(id))
  {
    ToTextChars(id);
  }

  /** Without the single-line condition the base is ambiguous: a line break moves text between two components. */
  lemma LineBreaksMakeTheBaseAmbiguous(b: BaseLines, head: string, middle: string, tail: string)
    ensures var one := b.(verb := head + ("\n" + ("\"@target-uri\": " + middle)), targetUri := tail);
            var two := b.(verb := head, targetUri := middle + ("\n" + ("\"@target-uri\": " + tail)));
            one != two && BaseText(one) == BaseText(two)
  {
    var name := "\"@target-uri\": ";
    var rest := "\n"
    + ("\"content-digest\": " + (b.digest + ("\n"
    + ("\"content-type\": " + (b.contentType + ("\n"
    + ("\"infernal-service-id\": " + (b.serviceId + ("\n"
    + ("\"infernal-instance-id\": " + (b.instanceId + ("\n"
    + ("\"infernal-request-id\": " + (b.requestId + ("\n"
    + ("\"@signature-params\": " + b.parameters))))))))))))))));
    LineMoves(head, name, middle, tail, rest);
    assert |head + ("\n" + (name + middle))| > |head|;
  }

  lemma LineMoves(head: string, name: string, middle: string, tail: string, rest: string)
    ensures (head + ("\n" + (name + middle))) + ("\n" + (name + (tail + rest)))
         == head + ("\n" + (name + ((middle + ("\n" + (name + tail))) + rest)))
  {
    assert (head + ("\n" + (name + middle))) + ("\n" + (name + (tail + rest)))
        == head + ("\n" + (name + (middle + ("\n" + (name + (tail + rest))))));
    assert (middle + ("\n" + (name + tail))) + rest == middle + ("\n" + (name + (tail + rest)));
  }

  /** Two bodies with one digest text have one digest. */
  lemma ContentDigestDeterminesTheHash(sha: Sha256, body: seq<byte>, body': seq<byte>)
    ensures ContentDigest(sha, body) == ContentDigest(sha, body') <==> sha(body) == sha(body')
  {
    if ContentDigest(sha, body) == ContentDigest(sha, body') {
      var a := Base64.Encode(Base64.STANDARD, sha(body));
      var b := Base64.Encode(Base64.STANDARD, sha(body'));
      StripSuffixOfJoin("sha-256=:" + a, ":");
      StripSuffixOfJoin("sha-256=:" + b, ":");
      StripPrefixOfJoin("sha-256=:", a);
      StripPrefixOfJoin("sha-256=:", b);
      Base64.EncodeIsInjective(Base64.STANDARD, sha(body), sha(body'));
    }
  }

  lemma ContentDigestIsOneLine(sha: Sha256, body: seq<byte>)
    ensures OneLine(ContentDigest(sha, body))
  {
    Base64.EncodeChars(Base64.STANDARD, sha(body));
  }
}
