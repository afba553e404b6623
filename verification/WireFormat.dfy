/** The wire formats spelled out: the lines a signature covers, the parameters and the headers, character for character. */
module WireFormat {
  import opened Errors
  import opened Int64
  import opened Text
  import opened Uuids
  import opened Credential
  import opened Wire
  import opened Request
  import opened Verify
  import Base64
  import Decimal
  import Utf8

  // ---------------------------------------------------------------- lines

  /** Lines with one line feed between each two. */
  function Joined(lines: seq<string>): (s: string) {
    if lines == [] then ""
    else if |lines| == 1 then lines[0]
    else lines[0] + ("\n" + Joined(lines[1..]))
  }

  /** The pieces of a text between its line feeds. */
  function SplitLines(s: string): (lines: seq<string>)
    ensures |lines| >= 1
  {
    if s == "" then [""]
    else
      var rest := SplitLines(s[1..]);
      if s[0] == '\n' then [""] + rest else [[s[0]] + rest[0]] + rest[1..]
  }

  lemma {:induction false} SplitOfOneLine(line: string)
    requires OneLine(line)
    ensures SplitLines(line) == [line]
  {
    if line != "" {
      assert line[0] != '\n' && OneLine(line[1..]) && line == [line[0]] + line[1..];
      SplitOfOneLine(line[1..]);
    }
  }

  lemma {:induction false} SplitOfFirstLine(line: string, rest: string)
    requires OneLine(line)
    ensures SplitLines(line + ("\n" + rest)) == [line] + SplitLines(rest)
  {
    var s := line + ("\n" + rest);
    if line == "" {
      assert s[1..] == rest;
    } else {
      assert s[0] == line[0] != '\n' && s[1..] == line[1..] + ("\n" + rest);
      assert line == [line[0]] + line[1..];
      SplitOfFirstLine(line[1..], rest);
    }
  }

  lemma {:induction false} SplitOfJoined(lines: seq<string>)
    requires lines != [] && forall line | line in lines :: OneLine(line)
    ensures SplitLines(Joined(lines)) == lines
  {
    assert lines[0] in lines && lines == [lines[0]] + lines[1..];
    if |lines| == 1 {
      SplitOfOneLine(lines[0]);
    } else {
      SplitOfFirstLine(lines[0], Joined(lines[1..]));
      SplitOfJoined(lines[1..]);
    }
  }

  lemma JoinedOfCons(line: string, rest: seq<string>)
    requires rest != []
    ensures Joined([line] + rest) == line + ("\n" + Joined(rest))
  {
    assert ([line] + rest)[1..] == rest;
  }

  lemma NamedLine(name: string, value: string, rest: string)
    ensures name + (value + ("\n" + rest)) == (name + value) + ("\n" + rest)
  {
  }

  /** One more line in front of the lines from `k + 1` on. */
  lemma NamedLines(lines: seq<string>, k: nat, name: string, value: string, rest: string) returns (s: string)
    requires k + 1 < |lines| && lines[k] == name + value && rest == Joined(lines[k + 1..])
    ensures s == name + (value + ("\n" + rest)) == Joined(lines[k..])
  {
    s := name + (value + ("\n" + rest));
    NamedLine(name, value, rest);
    assert lines[k..] == [lines[k]] + lines[k + 1..];
    JoinedOfCons(lines[k], lines[k + 1..]);
  }

  lemma JoinedOfEight(l: seq<string>, n: seq<string>, v: seq<string>)
    requires |l| == |n| == |v| == 8 && forall k | 0 <= k < 8 :: l[k] == n[k] + v[k]
    ensures Joined(l)
         == n[0] + (v[0] + ("\n" + (n[1] + (v[1] + ("\n" + (n[2] + (v[2] + ("\n" + (n[3] + (v[3] + ("\n"
          + (n[4] + (v[4] + ("\n" + (n[5] + (v[5] + ("\n" + (n[6] + (v[6] + ("\n" + (n[7] + v[7])))))))))))))))))))))
  {
    var s7 := n[7] + v[7];
    var s6 := NamedLines(l, 6, n[6], v[6], s7);
    var s5 := NamedLines(l, 5, n[5], v[5], s6);
    var s4 := NamedLines(l, 4, n[4], v[4], s5);
    var s3 := NamedLines(l, 3, n[3], v[3], s4);
    var s2 := NamedLines(l, 2, n[2], v[2], s3);
    var s1 := NamedLines(l, 1, n[1], v[1], s2);
    var s0 := NamedLines(l, 0, n[0], v[0], s1);
    assert l[0..] == l;
  }

  /** The eight lines of a base: a quoted name, a colon, a space and a value each. */
  function NamedValues(b: BaseLines): (lines: seq<string>)
    ensures |lines| == 8
  {
    ["\"@method\": " + b.verb, "\"@target-uri\": " + b.targetUri, "\"content-digest\": " + b.digest,
     "\"content-type\": " + b.contentType, "\"infernal-service-id\": " + b.serviceId,
     "\"infernal-instance-id\": " + b.instanceId, "\"infernal-request-id\": " + b.requestId,
     "\"@signature-params\": " + b.parameters]
  }

  lemma BaseTextIsJoined(b: BaseLines)
    ensures BaseText(b) == Joined(NamedValues(b))
  {
    JoinedOfEight(
      NamedValues(b),
      ["\"@method\": ", "\"@target-uri\": ", "\"content-digest\": ", "\"content-type\": ",
       "\"infernal-service-id\": ", "\"infernal-instance-id\": ", "\"infernal-request-id\": ", "\"@signature-params\": "],
      [b.verb, b.targetUri, b.digest, b.contentType, b.serviceId, b.instanceId, b.requestId, b.parameters]);
  }

  lemma OneLineOfConcat(name: string, value: string)
    requires OneLine(name) && OneLine(value)
    ensures OneLine(name + value)
  {
  }

  lemma NamesAreOneLine()
    ensures OneLine("\"@method\": ") && OneLine("\"@target-uri\": ")
    ensures OneLine("\"content-digest\": ") && OneLine("\"content-type\": ")
  {
  }

  lemma LaterNamesAreOneLine()
    ensures OneLine("\"infernal-service-id\": ") && OneLine("\"infernal-instance-id\": ")
    ensures OneLine("\"infernal-request-id\": ") && OneLine("\"@signature-params\": ")
  {
  }

  lemma SplitOfNamedValues(b: BaseLines)
    requires Lines(b) && OneLine(b.parameters)
    ensures SplitLines(Joined(NamedValues(b))) == NamedValues(b)
  {
    NamesAreOneLine();
    LaterNamesAreOneLine();
    OneLineOfConcat("\"@method\": ", b.verb);
    OneLineOfConcat("\"@target-uri\": ", b.targetUri);
    OneLineOfConcat("\"content-digest\": ", b.digest);
    OneLineOfConcat("\"content-type\": ", b.contentType);
    OneLineOfConcat("\"infernal-service-id\": ", b.serviceId);
    OneLineOfConcat("\"infernal-instance-id\": ", b.instanceId);
    OneLineOfConcat("\"infernal-request-id\": ", b.requestId);
    OneLineOfConcat("\"@signature-params\": ", b.parameters);
    SplitOfJoined(NamedValues(b));
  }

  /**
   * A signature base is eight lines, each a quoted name, a colon, a space and its value, in this order; splitting at
   * line feeds gives them back when no value has one.
   */
  lemma SignatureBaseLines(
    verb: string, targetUri: string, digest: string, contentType: string,
    serviceId: Uuid, instanceId: Uuid, requestId: Uuid, parameters: string
  )
    ensures var base := SignatureBase(
                          verb, targetUri, digest, contentType, serviceId, instanceId, requestId, parameters);
            var lines := ["\"@method\": " + verb,
                          "\"@target-uri\": " + targetUri,
                          "\"content-digest\": " + digest,
                          "\"content-type\": " + contentType,
                          "\"infernal-service-id\": " + ToText(serviceId),
                          "\"infernal-instance-id\": " + ToText(instanceId),
                          "\"infernal-request-id\": " + ToText(requestId),
                          "\"@signature-params\": " + parameters];
            && base == Joined(lines)
            && (OneLine(verb) && OneLine(targetUri) && OneLine(digest) && OneLine(contentType) && OneLine(parameters)
                ==> SplitLines(base) == lines)
  {
    var b := BaseLines(verb, targetUri, digest, contentType,
                       ToText(serviceId), ToText(instanceId), ToText(requestId), parameters);
    BaseTextIsJoined(b);
    UuidTextIsOneLine(serviceId);
    UuidTextIsOneLine(instanceId);
    UuidTextIsOneLine(requestId);
    if Lines(b) && OneLine(parameters) {
      SplitOfNamedValues(b);
    }
  }

  // ---------------------------------------------------------------- the component list

  function Quoted(name: string): (s: string) {
    "\"" + name + "\""
  }

  function Spaced(names: seq<string>): (s: string) {
    if names == [] then ""
    else if |names| == 1 then Quoted(names[0])
    else Quoted(names[0]) + (" " + Spaced(names[1..]))
  }

  lemma SpacedStep(n: seq<string>, k: nat, rest: string) returns (s: string)
    requires k + 1 < |n| && rest == Spaced(n[k + 1..])
    ensures s == Quoted(n[k]) + (" " + rest) == Spaced(n[k..])
    ensures s + ")" == (Quoted(n[k]) + " ") + (rest + ")")
  {
    s := Quoted(n[k]) + (" " + rest);
    assert n[k..][1..] == n[k + 1..];
  }

  lemma LeftToRight(a: string, b: string, c: string, d: string, e: string, f: string, g: string)
    ensures a + (b + (c + (d + (e + (f + g))))) == a + b + c + d + e + f + g
  {
  }

  lemma SpacedOfSeven(n: seq<string>)
    requires |n| == 7
    ensures "(" + Spaced(n) + ")"
         == ("(" + Quoted(n[0]) + " ") + (Quoted(n[1]) + " ") + (Quoted(n[2]) + " ") + (Quoted(n[3]) + " ")
            + (Quoted(n[4]) + " ") + (Quoted(n[5]) + " ") + (Quoted(n[6]) + ")")
  {
    assert n[0..] == n;
    var s6 := Quoted(n[6]);
    var s5 := SpacedStep(n, 5, s6);
    var s4 := SpacedStep(n, 4, s5);
    var s3 := SpacedStep(n, 3, s4);
    var s2 := SpacedStep(n, 2, s3);
    var s1 := SpacedStep(n, 1, s2);
    var s0 := SpacedStep(n, 0, s1);
    LeftToRight("(" + Quoted(n[0]) + " ", Quoted(n[1]) + " ", Quoted(n[2]) + " ", Quoted(n[3]) + " ",
                Quoted(n[4]) + " ", Quoted(n[5]) + " ", Quoted(n[6]) + ")");
  }

  lemma QuotedNames()
    ensures "(\"@method\" " == "(" + Quoted("@method") + " "
    ensures "\"@target-uri\" " == Quoted("@target-uri") + " "
  {
  }

  lemma QuotedContentNames()
    ensures "\"content-digest\" " == Quoted("content-digest") + " "
    ensures "\"content-type\" " == Quoted("content-type") + " "
  {
  }

  lemma QuotedServiceName()
    ensures "\"infernal-service-id\" " == Quoted("infernal-service-id") + " "
  {
  }

  lemma QuotedInstanceName()
    ensures "\"infernal-instance-id\" " == Quoted("infernal-instance-id") + " "
  {
  }

  lemma QuotedRequestName()
    ensures "\"infernal-request-id\")" == Quoted("infernal-request-id") + ")"
  {
  }

  /** The component list names the first seven lines of the base, quoted, separated by spaces, in their order. */
  lemma CoveredComponents()
    ensures COVERED_COMPONENTS
         == "(" + Spaced(["@method", "@target-uri", "content-digest", "content-type",
                          "infernal-service-id", "infernal-instance-id", "infernal-request-id"]) + ")"
  {
    SpacedOfSeven(["@method", "@target-uri", "content-digest", "content-type",
                   "infernal-service-id", "infernal-instance-id", "infernal-request-id"]);
    QuotedNames();
    QuotedContentNames();
    QuotedServiceName();
    QuotedInstanceName();
    QuotedRequestName();
  }

  /** The seven names are those of the first seven lines, line by line. */
  lemma ComponentsNameTheLines(b: BaseLines, k: nat)
    requires k < 7
    ensures var names := ["@method", "@target-uri", "content-digest", "content-type",
                          "infernal-service-id", "infernal-instance-id", "infernal-request-id"];
            Quoted(names[k]) + ": " <= NamedValues(b)[k]
  {
    FirstNames();
    ServiceName();
    InstanceName();
    RequestName();
  }

  lemma FirstNames()
    ensures "\"@method\": " == Quoted("@method") + ": "
    ensures "\"@target-uri\": " == Quoted("@target-uri") + ": "
    ensures "\"content-digest\": " == Quoted("content-digest") + ": "
    ensures "\"content-type\": " == Quoted("content-type") + ": "
  {
  }

  lemma ServiceName()
    ensures "\"infernal-service-id\": " == Quoted("infernal-service-id") + ": "
  {
  }

  lemma InstanceName()
    ensures "\"infernal-instance-id\": " == Quoted("infernal-instance-id") + ": "
  {
  }

  lemma RequestName()
    ensures "\"infernal-request-id\": " == Quoted("infernal-request-id") + ": "
  {
  }

  // ---------------------------------------------------------------- the parameters

  lemma RightToLeft(
    a: string, b: string, c: string, d: string, e: string, f: string, g: string, h: string, i: string
  )
    ensures a + (b + (c + (d + (e + (f + (g + (h + i))))))) == a + b + c + d + e + f + g + h + i
  {
  }

  /** The parameters, written out. */
  function Spelled(c: string, e: string, n: string, k: string): (s: string) {
    "(\"@method\" " + "\"@target-uri\" " + "\"content-digest\" " + "\"content-type\" "
    + "\"infernal-service-id\" " + "\"infernal-instance-id\" " + "\"infernal-request-id\")"
    + ";created=" + c + ";expires=" + e + ";nonce=\"" + n + "\";keyid=\"" + k + "\";alg=\"ed25519\""
  }

  lemma ParametersAreSpelled(c: string, e: string, n: string, k: string)
    ensures ParametersText(c, e, n, k) == Spelled(c, e, n, k)
  {
    RightToLeft(COVERED_COMPONENTS, ";created=", c, ";expires=", e, ";nonce=\"", n, "\";keyid=\"",
                k + ("\";alg=\"" + "ed25519\""));
    assert "\";alg=\"" + "ed25519\"" == "\";alg=\"ed25519\"";
  }

  /** Four texts a signature input may carry: times of an open window, a nonce and a UUID in any spelling. */
  ghost predicate Carries(c: string, e: string, n: string, k: string) {
    && c != "" && e != "" && Decimal.AllDigits(c) && Decimal.AllDigits(e)
    && Decimal.Value(c) < Decimal.Value(e) <= Decimal.Value(c) + 30
    && Decimal.Value(e) <= 9223372036854775807
    && 16 <= |n| <= 128
    && (forall x | x in n :: 'a' <= x <= 'z' || 'A' <= x <= 'Z' || '0' <= x <= '9' || x == '-' || x == '_')
    && UuidText(k)
  }

  lemma CarriesIsInGrammar(value: string, t: InputTexts)
    requires value == SIGNATURE_LABEL + "=" + ParametersText(t.created, t.expires, t.nonce, t.keyId)
    ensures InGrammar(value, t) <==> Carries(t.created, t.expires, t.nonce, t.keyId)
  {
    UuidTextDecision(t.keyId);
  }

  lemma LabelIsSpelled()
    ensures SIGNATURE_LABEL + "=" == "sig1="
  {
  }

  /** The accepted text, spelled out: it parses to the numbers and the UUID it spells, and to itself minus the label. */
  lemma SpelledInputIsAccepted(c: string, e: string, n: string, k: string)
    requires Carries(c, e, n, k)
    ensures var parameters
              := "(\"@method\" " + "\"@target-uri\" " + "\"content-digest\" " + "\"content-type\" "
                 + "\"infernal-service-id\" " + "\"infernal-instance-id\" " + "\"infernal-request-id\")"
                 + ";created=" + c + ";expires=" + e + ";nonce=\"" + n + "\";keyid=\"" + k + "\";alg=\"ed25519\"";
            var r := ParseSignatureInput("sig1=" + parameters);
            && r.Ok? && r.value.parameters == parameters && Spells(k, r.value.keyId)
            && r.value.created == Decimal.Value(c) && r.value.expires == Decimal.Value(e)
  {
    var t := InputTexts(c, e, n, k);
    LabelIsSpelled();
    ParametersAreSpelled(c, e, n, k);
    var value := SIGNATURE_LABEL + "=" + ParametersText(c, e, n, k);
    CarriesIsInGrammar(value, t);
    GrammarIsAccepted(value, t);
    ParseDecision(k, Parse(k).value);
  }

  /** Nothing else is accepted. */
  lemma AcceptedInputIsSpelled(value: string) returns (c: string, e: string, n: string, k: string)
    requires ParseSignatureInput(value).Ok?
    ensures Carries(c, e, n, k)
    ensures value == "sig1=" + (
                       "(\"@method\" " + "\"@target-uri\" " + "\"content-digest\" " + "\"content-type\" "
                       + "\"infernal-service-id\" " + "\"infernal-instance-id\" " + "\"infernal-request-id\")"
                       + ";created=" + c + ";expires=" + e + ";nonce=\"" + n + "\";keyid=\"" + k + "\";alg=\"ed25519\"")
  {
    var t := AcceptedIsInGrammar(value);
    c, e, n, k := t.created, t.expires, t.nonce, t.keyId;
    LabelIsSpelled();
    ParametersAreSpelled(c, e, n, k);
    CarriesIsInGrammar(value, t);
  }

  // ---------------------------------------------------------------- what is signed, sent and checked

  /** The message handed to the signer, line by line, with every value written out. */
  lemma MessageLines(
    sha: Sha256, parts: RequestParts, key: ClientPublicKey, created: I64, expires: I64, nonce: string
  )
    ensures var message := MessageToSign(sha, parts, key, created, expires, nonce);
            var lines := ["\"@method\": " + parts.verb,
                          "\"@target-uri\": " + ("https://" + parts.authority + parts.pathAndQuery),
                          "\"content-digest\": " + ("sha-256=:" + Base64.Encode(Base64.STANDARD, sha(parts.body)) + ":"),
                          "\"content-type\": " + parts.contentType,
                          "\"infernal-service-id\": " + ToText(key.serviceId),
                          "\"infernal-instance-id\": " + ToText(key.instanceId),
                          "\"infernal-request-id\": " + ToText(parts.requestId),
                          "\"@signature-params\": "
                          + Spelled(Decimal.Text(created), Decimal.Text(expires), nonce, ToText(key.keyId))];
            && message == Utf8.Encode(Joined(lines))
            && (0 <= created && 0 <= expires && OneLine(nonce) ==>
                  Utf8.Decode(message) == Some(Joined(lines)) && SplitLines(Joined(lines)) == lines)
  {
    var c, e, k := Decimal.Text(created), Decimal.Text(expires), ToText(key.keyId);
    var digest, parameters := ContentDigest(sha, parts.body), ParametersText(c, e, nonce, k);
    ParametersAreSpelled(c, e, nonce, k);
    SignatureBaseLines(parts.verb, TargetUri(parts), digest, parts.contentType,
                       key.serviceId, key.instanceId, parts.requestId, parameters);
    if 0 <= created && 0 <= expires && OneLine(nonce) {
      Decimal.ValueOfNatText(created);
      Decimal.ValueOfNatText(expires);
      PartsAreSingleLines(parts);
      ContentDigestIsOneLine(sha, parts.body);
      UuidTextIsOneLine(key.keyId);
      ParametersAreOneLine(c, e, nonce, k);
      Utf8.DecodeOfEncode(SignatureBase(parts.verb, TargetUri(parts), digest, parts.contentType,
                                        key.serviceId, key.instanceId, parts.requestId, parameters));
    }
  }

  lemma ComponentsAreOneLine()
    ensures OneLine(COVERED_COMPONENTS)
  {
    ComponentNamesAreOneLine();
    LaterComponentNamesAreOneLine();
  }

  lemma ComponentNamesAreOneLine()
    ensures OneLine("(\"@method\" " + "\"@target-uri\" " + "\"content-digest\" " + "\"content-type\" ")
  {
    assert OneLine("(\"@method\" ") && OneLine("\"@target-uri\" ");
    assert OneLine("\"content-digest\" ") && OneLine("\"content-type\" ");
  }

  lemma LaterComponentNamesAreOneLine()
    ensures OneLine("\"infernal-service-id\" ") && OneLine("\"infernal-instance-id\" ")
    ensures OneLine("\"infernal-request-id\")")
  {
  }

  lemma ParametersAreOneLine(c: string, e: string, n: string, k: string)
    requires OneLine(c) && OneLine(e) && OneLine(n) && OneLine(k)
    ensures OneLine(ParametersText(c, e, n, k))
  {
    ComponentsAreOneLine();
    assert OneLine(";created=") && OneLine(";expires=") && OneLine(";nonce=\"");
    assert OneLine("\";keyid=\"") && OneLine("\";alg=\"") && OneLine("ed25519\"");
  }

  /** The seven headers of a signed request, with every value written out. */
  lemma SignedHeaders(
    sha: Sha256, parts: RequestParts, key: ClientPublicKey, created: I64, expires: I64, nonce: string,
    signer: seq<byte> -> Signature
  )
    requires SignWith(sha, parts, key, created, expires, nonce, signer).Ok?
    ensures Headers(SignWith(sha, parts, key, created, expires, nonce, signer).value)
         == [ ("Content-Type", parts.contentType),
              ("Content-Digest", "sha-256=:" + Base64.Encode(Base64.STANDARD, sha(parts.body)) + ":"),
              ("Infernal-Service-Id", ToText(key.serviceId)),
              ("Infernal-Instance-Id", ToText(key.instanceId)),
              ("Infernal-Request-Id", ToText(parts.requestId)),
              ("Signature-Input",
               "sig1=" + Spelled(Decimal.Text(created), Decimal.Text(expires), nonce, ToText(key.keyId))),
              ("Signature",
               "sig1=:" + Base64.Encode(Base64.STANDARD, signer(MessageToSign(sha, parts, key, created, expires, nonce)))
               + ":") ]
  {
    LabelIsSpelled();
    assert SIGNATURE_LABEL + "=:" == "sig1=:";
    ParametersAreSpelled(Decimal.Text(created), Decimal.Text(expires), nonce, ToText(key.keyId));
  }

  /** The bytes an accepted request was checked over: its own values in the eight lines, its parameters verbatim. */
  lemma CheckedLines(sha: Sha256, check: Checker, request: IncomingRequest, key: ClientPublicKey, now: I64)
    returns (parameters: string, signature: Signature)
    requires VerifyIncoming(sha, check, request, key, now).Ok?
    ensures request.signatureInput == "sig1=" + parameters
    ensures request.signature == "sig1=:" + Base64.Encode(Base64.STANDARD, signature) + ":"
    ensures request.contentDigest == "sha-256=:" + Base64.Encode(Base64.STANDARD, sha(request.parts.body)) + ":"
    ensures var lines := ["\"@method\": " + request.parts.verb,
                          "\"@target-uri\": " + ("https://" + request.parts.authority + request.parts.pathAndQuery),
                          "\"content-digest\": " + request.contentDigest,
                          "\"content-type\": " + request.parts.contentType,
                          "\"infernal-service-id\": " + ToText(request.serviceId),
                          "\"infernal-instance-id\": " + ToText(request.instanceId),
                          "\"infernal-request-id\": " + ToText(request.parts.requestId),
                          "\"@signature-params\": " + parameters];
            check(key.publicKey, Utf8.Encode(Joined(lines)), signature).Ok?
  {
    var t, s := AcceptedIsAcceptable(sha, check, request, key, now);
    signature := s;
    parameters := ParametersText(t.created, t.expires, t.nonce, t.keyId);
    LabelIsSpelled();
    assert SIGNATURE_LABEL + "=:" == "sig1=:";
    SignatureBaseLines(request.parts.verb, TargetUri(request.parts), request.contentDigest, request.parts.contentType,
                       request.serviceId, request.instanceId, request.parts.requestId, parameters);
  }
}
