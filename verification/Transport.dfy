/** The gate in front of extra trust anchors: one PEM certificate block (section 5 of RFC 7468). */
module Transport {
  import opened Errors
  import opened Int64
  import opened Text
  import Base64
  import Utf8

  const PEM_CERTIFICATE_BEGIN := "-----BEGIN CERTIFICATE-----"
  const PEM_CERTIFICATE_END := "-----END CERTIFICATE-----"

  /** Every X.509 certificate is a SEQUENCE. */
  const DER_SEQUENCE: byte := 0x30

  /** The text after the first `begin` up to the next `end`. */
  function Between(text: string, begin: string, end: string): (r: Option<string>) {
    var index :- Find(text, begin);
    var afterBegin := index + |begin|;
    var length :- Find(text[afterBegin..], end);
    Some(text[afterBegin..afterBegin + length])
  }

  function ValidatePemCertificate(pem: seq<byte>): (r: Result<()>) {
    var text :- Utf8.Decode(pem).OkOr(InvalidTrustAnchor);
    var body :- Between(text, PEM_CERTIFICATE_BEGIN, PEM_CERTIFICATE_END).OkOr(InvalidTrustAnchor);
    var decoded :- Base64.Decode(Base64.STANDARD, WithoutWhitespace(body)).OkOr(InvalidTrustAnchor);
    if decoded == [] || decoded[0] != DER_SEQUENCE then Err(InvalidTrustAnchor) else Ok(())
  }

  /** Behind this leading text, the marker that follows is the first one. */
  predicate NoEarlier(before: string, marker: string) {
    forall k | 0 <= k < |before| :: !OccursAt(before + marker, marker, k)
  }

  function Block(before: string, begin: string, body: string, end: string, after: string): (text: string) {
    before + (begin + (body + (end + after)))
  }

  /** No earlier marker in a prefix is no earlier marker in the whole text: an occurrence that early ends in time. */
  lemma FirstOccurrenceIsLocal(before: string, marker: string, rest: string)
    ensures FirstJoint(before, marker, rest) <==> NoEarlier(before, marker)
  {
    var whole, part := before + (marker + rest), before + marker;
    forall k | 0 <= k < |before| ensures OccursAt(whole, marker, k) == OccursAt(part, marker, k) {
      assert whole[k..k + |marker|] == part[k..k + |marker|];
    }
  }

  lemma NoFirstCharacterNoMarker(body: string, end: string)
    requires end != "" && end[0] !in body
    ensures NoEarlier(body, end)
  {
    forall k | 0 <= k < |body| ensures !OccursAt(body + end, end, k) {
      assert (body + end)[k] == body[k] && body[k] != end[0];
    }
  }

  lemma FirstMarkerFound(before: string, marker: string, rest: string)
    requires NoEarlier(before, marker)
    ensures Find(before + (marker + rest), marker) == Some(|before|)
    ensures (before + (marker + rest))[|before| + |marker|..] == rest
  {
    FirstOccurrenceIsLocal(before, marker, rest);
    FindAtJoin(before, marker, rest);
  }

  lemma BetweenOfBlock(before: string, begin: string, body: string, end: string, after: string)
    requires NoEarlier(before, begin) && NoEarlier(body, end)
    ensures Between(Block(before, begin, body, end, after), begin, end) == Some(body)
  {
    var text, rest := Block(before, begin, body, end, after), body + (end + after);
    FirstMarkerFound(before, begin, rest);
    FirstMarkerFound(body, end, after);
    assert text[|before| + |begin|..|before| + |begin| + |body|] == rest[..|body|] == body;
  }

  lemma BlockOfBetween(text: string, begin: string, end: string) returns (before: string, after: string)
    requires Between(text, begin, end).Some?
    ensures NoEarlier(before, begin)
    ensures text == Block(before, begin, Between(text, begin, end).value, end, after)
  {
    var index := Find(text, begin).value;
    var rest := text[index + |begin|..];
    var length := Find(rest, end).value;
    before, after := text[..index], rest[length + |end|..];
    JoinOfFind(text, begin);
    JoinOfFind(rest, end);
    assert rest[..length] == Between(text, begin, end).value;
    FirstOccurrenceIsLocal(before, begin, rest);
  }

  /** Text around the first begin marker, whose body is the base64 of `der` with whitespace anywhere. */
  predicate PemText(text: string, before: string, body: string, after: string, der: seq<byte>) {
    && text == Block(before, PEM_CERTIFICATE_BEGIN, body, PEM_CERTIFICATE_END, after)
    && NoEarlier(before, PEM_CERTIFICATE_BEGIN)
    && WithoutWhitespace(body) == Base64.Encode(Base64.STANDARD, der)
    && der != [] && der[0] == DER_SEQUENCE
  }

  /** A body that is base64 up to whitespace contains no dash, so it cannot hide an end marker. */
  lemma BodyHasNoDash(body: string, der: seq<byte>)
    requires WithoutWhitespace(body) == Base64.Encode(Base64.STANDARD, der)
    ensures '-' !in body
  {
    Base64.EncodeChars(Base64.STANDARD, der);
    assert !IsWhitespace('-') && !Base64.InAlphabet(Base64.STANDARD, '-');
  }

  lemma PemTextIsAccepted(text: string, before: string, body: string, after: string, der: seq<byte>)
    requires PemText(text, before, body, after, der)
    ensures ValidatePemCertificate(Utf8.Encode(text)).Ok?
  {
    Utf8.DecodeOfEncode(text);
    BodyHasNoDash(body, der);
    NoFirstCharacterNoMarker(body, PEM_CERTIFICATE_END);
    BetweenOfBlock(before, PEM_CERTIFICATE_BEGIN, body, PEM_CERTIFICATE_END, after);
    Base64.DecodeOfEncode(Base64.STANDARD, der);
  }

  lemma AcceptedIsPemText(pem: seq<byte>) returns (text: string, before: string, body: string, after: string, der: seq<byte>)
    requires ValidatePemCertificate(pem).Ok?
    ensures pem == Utf8.Encode(text) && PemText(text, before, body, after, der)
  {
    text := Utf8.Decode(pem).value;
    Utf8.EncodeOfDecode(pem);
    body := Between(text, PEM_CERTIFICATE_BEGIN, PEM_CERTIFICATE_END).value;
    before, after := BlockOfBetween(text, PEM_CERTIFICATE_BEGIN, PEM_CERTIFICATE_END);
    der := Base64.Decode(Base64.STANDARD, WithoutWhitespace(body)).value;
    Base64.EncodeOfDecode(Base64.STANDARD, WithoutWhitespace(body));
  }

  /**
   * The gate accepts exactly the UTF-8 texts whose first marked block is the base64 of bytes tagged as a SEQUENCE,
   * with any leading text that holds no earlier marker, whitespace anywhere in the block, and any trailing text.
   */
  lemma PemDecision(pem: seq<byte>)
    ensures ValidatePemCertificate(pem).Ok? <==>
            exists text, before, body, after, der ::
              pem == Utf8.Encode(text) && PemText(text, before, body, after, der)
    ensures ValidatePemCertificate(pem).Err? ==> ValidatePemCertificate(pem).error == InvalidTrustAnchor
  {
    if ValidatePemCertificate(pem).Ok? {
      var _, _, _, _, _ := AcceptedIsPemText(pem);
    } else if text, before, body, after, der :|
      pem == Utf8.Encode(text) && PemText(text, before, body, after, der) {
      PemTextIsAccepted(text, before, body, after, der);
    }
  }

  // ---------------------------------------------------------------- whitespace in the block

  /** The body strips to the base64 of bytes tagged as a SEQUENCE. */
  predicate CertificateBody(body: string) {
    var der := Base64.Decode(Base64.STANDARD, WithoutWhitespace(body));
    der.Some? && der.value != [] && der.value[0] == DER_SEQUENCE
  }

  /** The marked body of a text: no begin marker before it, and no end marker before its end. */
  predicate MarkedBody(before: string, body: string) {
    && NoEarlier(before, PEM_CERTIFICATE_BEGIN)
    && NoEarlier(body, PEM_CERTIFICATE_END)
  }

  function CertificateText(before: string, body: string, after: string): (text: string) {
    Block(before, PEM_CERTIFICATE_BEGIN, body, PEM_CERTIFICATE_END, after)
  }

  /** The gate looks at the marked body and at nothing else. */
  lemma MarkedBodyDecides(before: string, body: string, after: string)
    requires MarkedBody(before, body)
    ensures ValidatePemCertificate(Utf8.Encode(CertificateText(before, body, after)))
         == if CertificateBody(body) then Ok(()) else Err(InvalidTrustAnchor)
  {
    Utf8.DecodeOfEncode(CertificateText(before, body, after));
    BetweenOfBlock(before, PEM_CERTIFICATE_BEGIN, body, PEM_CERTIFICATE_END, after);
  }

  lemma CertificateBodyHasNoDash(body: string)
    requires CertificateBody(body)
    ensures '-' !in body
  {
    Base64.EncodeOfDecode(Base64.STANDARD, WithoutWhitespace(body));
    BodyHasNoDash(body, Base64.Decode(Base64.STANDARD, WithoutWhitespace(body)).value);
  }

  /** Inserted whitespace changes what a marked body strips to in no way. */
  lemma BlankRunKeepsTheBody(left: string, blank: string, right: string)
    requires Blank(blank)
    ensures CertificateBody(left + blank + right) == CertificateBody(left + right)
  {
    WithoutWhitespaceIgnoresBlanks(left, blank, right);
  }

  /** The end marker contains a space, so inserted whitespace can complete one inside the body, behind a good block. */
  ghost predicate CompletesAnEndMarker(body: string) {
    exists cut, tail ::
      && body + PEM_CERTIFICATE_END == cut + (PEM_CERTIFICATE_END + tail)
      && |cut| < |body| && CertificateBody(cut)
  }

  lemma OccursAtJoin(left: string, pattern: string, right: string)
    ensures OccursAt(left + (pattern + right), pattern, |left|)
  {
    assert (left + (pattern + right))[|left|..|left| + |pattern|] == pattern;
  }

  lemma NoDashNoMarker(body: string)
    requires '-' !in body
    ensures NoEarlier(body, PEM_CERTIFICATE_END) && !CompletesAnEndMarker(body)
  {
    NoFirstCharacterNoMarker(body, PEM_CERTIFICATE_END);
    if cut, tail :|
      && body + PEM_CERTIFICATE_END == cut + (PEM_CERTIFICATE_END + tail)
      && |cut| < |body| && CertificateBody(cut) {
      OccursAtJoin(cut, PEM_CERTIFICATE_END, tail);
      assert false;
    }
  }

  lemma EarlierMarkerCuts(body: string, end: string, after: string, cut: string, tail: string)
    requires body + end == cut + (end + tail)
    ensures body + (end + after) == cut + (end + (tail + after))
  {
    assert body + (end + after) == (body + end) + after;
    assert cut + (end + (tail + after)) == (cut + (end + tail)) + after;
  }

  lemma CutAtFirstMarker(body: string, end: string, after: string)
    ensures var rest := body + (end + after);
            && Find(rest, end).Some? && Find(rest, end).value <= |body|
            && var cut := rest[..Find(rest, end).value];
            body + end == cut + (end + (body + end)[|cut| + |end|..])
  {
    var rest := body + (end + after);
    assert rest[|body|..|body| + |end|] == end;
    assert OccursAt(rest, end, |body|);
    var k := Find(rest, end).value;
    assert rest[k..k + |end|] == end && rest == (body + end) + after;
    assert (body + end)[k..k + |end|] == end && (body + end)[..k] == rest[..k];
  }

  /** What is marked in a text is its body up to an end marker, if not the whole of it. */
  lemma BetweenIsACut(before: string, begin: string, body: string, end: string, after: string)
    returns (cut: string, tail: string)
    requires NoEarlier(before, begin)
    ensures Between(Block(before, begin, body, end, after), begin, end) == Some(cut)
    ensures body + end == cut + (end + tail) && |cut| <= |body|
    ensures |cut| == |body| ==> cut == body
  {
    var text, rest := Block(before, begin, body, end, after), body + (end + after);
    FirstMarkerFound(before, begin, rest);
    CutAtFirstMarker(body, end, after);
    cut := rest[..Find(rest, end).value];
    tail := (body + end)[|cut| + |end|..];
    assert rest[..|body|] == body;
    assert text[|before| + |begin|..|before| + |begin| + |cut|] == cut;
  }

  lemma AcceptedBodyIsACut(before: string, body: string, after: string)
    requires NoEarlier(before, PEM_CERTIFICATE_BEGIN) && '-' in body
    requires ValidatePemCertificate(Utf8.Encode(CertificateText(before, body, after))).Ok?
    ensures CompletesAnEndMarker(body)
  {
    var text := CertificateText(before, body, after);
    Utf8.DecodeOfEncode(text);
    var cut, tail := BetweenIsACut(before, PEM_CERTIFICATE_BEGIN, body, PEM_CERTIFICATE_END, after);
    assert CertificateBody(cut);
    CertificateBodyHasNoDash(cut);
    assert body + PEM_CERTIFICATE_END == cut + (PEM_CERTIFICATE_END + tail);
  }

  /** A text whose body has a dash is accepted exactly when it holds an earlier end marker behind one. */
  lemma DashedPaddingDecision(before: string, body: string, after: string)
    requires NoEarlier(before, PEM_CERTIFICATE_BEGIN) && '-' in body
    ensures ValidatePemCertificate(Utf8.Encode(CertificateText(before, body, after)))
         == if CompletesAnEndMarker(body) then Ok(()) else Err(InvalidTrustAnchor)
  {
    var text := CertificateText(before, body, after);
    Utf8.DecodeOfEncode(text);
    if cut, tail :|
      && body + PEM_CERTIFICATE_END == cut + (PEM_CERTIFICATE_END + tail)
      && |cut| < |body| && CertificateBody(cut) {
      CertificateBodyHasNoDash(cut);
      NoDashNoMarker(cut);
      EarlierMarkerCuts(body, PEM_CERTIFICATE_END, after, cut, tail);
      assert text == CertificateText(before, cut, tail + after);
      MarkedBodyDecides(before, cut, tail + after);
    } else if ValidatePemCertificate(Utf8.Encode(text)).Ok? {
      AcceptedBodyIsACut(before, body, after);
    }
  }

  /**
   * Whitespace inserted at any position of the marked body leaves the verdict unchanged, if and only if it does not
   * complete an end marker right behind a certificate body. Bodies without a dash, and so all accepted ones, are
   * beyond that exception.
   */
  lemma BlankRunDecision(before: string, left: string, blank: string, right: string, after: string)
    requires MarkedBody(before, left + right) && Blank(blank)
    ensures ValidatePemCertificate(Utf8.Encode(CertificateText(before, left + blank + right, after)))
         == ValidatePemCertificate(Utf8.Encode(CertificateText(before, left + right, after)))
       <==> !CompletesAnEndMarker(left + blank + right)
    ensures '-' !in left + right ==> !CompletesAnEndMarker(left + blank + right)
    ensures ValidatePemCertificate(Utf8.Encode(CertificateText(before, left + right, after))).Ok? ==>
            ValidatePemCertificate(Utf8.Encode(CertificateText(before, left + blank + right, after))).Ok?
  {
    var body, padded := left + right, left + blank + right;
    MarkedBodyDecides(before, body, after);
    BlankRunKeepsTheBody(left, blank, right);
    assert !IsWhitespace('-');
    if '-' !in body {
      NoDashNoMarker(padded);
      MarkedBodyDecides(before, padded, after);
    } else {
      DashedPaddingDecision(before, padded, after);
      if CertificateBody(body) {
        CertificateBodyHasNoDash(body);
      }
    }
  }

  /** A marker with a space in it does not start in a text without one. */
  lemma NoSpaceNoMarker(body: string, left: string, right: string)
    requires ' ' !in body && ' ' !in left
    ensures NoEarlier(body, left + " " + right)
  {
    var end := left + " " + right;
    forall k | 0 <= k < |body| ensures !OccursAt(body + end, end, k) {
      assert k + |left| < |body| ==> (body + end)[k + |left|] == body[k + |left|];
      assert k + |left| >= |body| ==> (body + end)[k + |left|] == left[k + |left| - |body|];
      assert end[|left|] == ' ';
    }
  }

  lemma EncodingIsDense(der: seq<byte>)
    ensures WithoutWhitespace(Base64.Encode(Base64.STANDARD, der)) == Base64.Encode(Base64.STANDARD, der)
  {
    var body := Base64.Encode(Base64.STANDARD, der);
    Base64.EncodeChars(Base64.STANDARD, der);
    forall c | c in body ensures !IsWhitespace(c) {
      assert Base64.InAlphabet(Base64.STANDARD, c);
    }
    WithoutWhitespaceOfDense(body);
  }

  lemma EncodingIsACertificateBody(der: seq<byte>)
    requires der != [] && der[0] == DER_SEQUENCE
    ensures CertificateBody(Base64.Encode(Base64.STANDARD, der)) && ' ' !in Base64.Encode(Base64.STANDARD, der)
  {
    var body := Base64.Encode(Base64.STANDARD, der);
    Base64.EncodeChars(Base64.STANDARD, der);
    EncodingIsDense(der);
    Base64.DecodeOfEncode(Base64.STANDARD, der);
  }

  lemma MarkerStartsWithDash(left: string, right: string)
    requires left + " " + right == PEM_CERTIFICATE_END
    ensures '-' in left
  {
    assert PEM_CERTIFICATE_END[0] == '-';
    assert (left + " " + right)[0] == if left == "" then ' ' else left[0];
  }

  lemma WithoutTheSpace(before: string, body: string, left: string, right: string, after: string)
    requires NoEarlier(before, PEM_CERTIFICATE_BEGIN) && ' ' !in body
    requires left + " " + right == PEM_CERTIFICATE_END && ' ' !in left + right && '-' in left
    ensures MarkedBody(before, body + left + right)
    ensures ValidatePemCertificate(Utf8.Encode(CertificateText(before, body + left + right, after))).Err?
  {
    var joined := body + left + right;
    NoSpaceNoMarker(joined, left, right);
    MarkedBodyDecides(before, joined, after);
    assert '-' in joined;
    if CertificateBody(joined) {
      CertificateBodyHasNoDash(joined);
    }
  }

  lemma WithTheSpace(before: string, body: string, left: string, right: string, after: string)
    requires NoEarlier(before, PEM_CERTIFICATE_BEGIN) && CertificateBody(body)
    requires left + " " + right == PEM_CERTIFICATE_END && '-' in left
    ensures ValidatePemCertificate(Utf8.Encode(CertificateText(before, body + left + " " + right, after))).Ok?
  {
    var joined := body + left + " " + right;
    assert joined == body + (left + " " + right);
    assert joined + PEM_CERTIFICATE_END == body + (PEM_CERTIFICATE_END + PEM_CERTIFICATE_END);
    assert CompletesAnEndMarker(joined);
    DashedPaddingDecision(before, joined, after);
  }

  /** The exception is real: behind any certificate, one inserted space turns a refused text into an accepted one. */
  lemma InsertedSpaceCompletesAMarker(before: string, der: seq<byte>, left: string, right: string, after: string)
    requires NoEarlier(before, PEM_CERTIFICATE_BEGIN) && der != [] && der[0] == DER_SEQUENCE
    requires left + " " + right == PEM_CERTIFICATE_END && ' ' !in left + right
    ensures var body := Base64.Encode(Base64.STANDARD, der);
            && MarkedBody(before, body + left + right)
            && ValidatePemCertificate(Utf8.Encode(CertificateText(before, body + left + right, after))).Err?
            && ValidatePemCertificate(Utf8.Encode(CertificateText(before, body + left + " " + right, after))).Ok?
  {
    var body := Base64.Encode(Base64.STANDARD, der);
    EncodingIsACertificateBody(der);
    MarkerStartsWithDash(left, right);
    WithoutTheSpace(before, body, left, right, after);
    WithTheSpace(before, body, left, right, after);
  }

  /** The space of the marker, and with it the exception, exists. */
  lemma EndMarkerHasASpace() returns (left: string, right: string)
    ensures left + " " + right == PEM_CERTIFICATE_END && ' ' !in left + right
  {
    left, right := "-----END", "CERTIFICATE-----";
  }

  // ---------------------------------------------------------------- certificates in lines

  predicate LineBreak(s: string) {
    s == "\n" || s == "\r\n"
  }

  function Concatenation(lines: seq<string>): (s: string) {
    if lines == [] then "" else lines[0] + Concatenation(lines[1..])
  }

  /** Each line with its own line break behind it. */
  function Broken(lines: seq<string>, breaks: seq<string>): (s: string)
    requires |lines| == |breaks|
  {
    if lines == [] then "" else lines[0] + breaks[0] + Broken(lines[1..], breaks[1..])
  }

  lemma {:induction false} BreaksAreDropped(lines: seq<string>, breaks: seq<string>)
    requires |lines| == |breaks| && forall s | s in breaks :: LineBreak(s)
    ensures WithoutWhitespace(Broken(lines, breaks)) == WithoutWhitespace(Concatenation(lines))
  {
    if lines != [] {
      assert LineBreak(breaks[0]);
      BreaksAreDropped(lines[1..], breaks[1..]);
      var rest := Broken(lines[1..], breaks[1..]);
      WithoutWhitespaceIgnoresBlanks(lines[0], breaks[0], rest);
      WithoutWhitespaceOfConcat(lines[0], rest);
      WithoutWhitespaceOfConcat(lines[0], Concatenation(lines[1..]));
    }
  }

  lemma BrokenBody(der: seq<byte>, first: string, lines: seq<string>, breaks: seq<string>)
    requires Concatenation(lines) == Base64.Encode(Base64.STANDARD, der)
    requires |lines| == |breaks| && LineBreak(first) && forall s | s in breaks :: LineBreak(s)
    ensures WithoutWhitespace(first + Broken(lines, breaks)) == Base64.Encode(Base64.STANDARD, der)
  {
    WithoutWhitespaceOfConcat(first, Broken(lines, breaks));
    WithoutWhitespaceOfBlank(first);
    BreaksAreDropped(lines, breaks);
    EncodingIsDense(der);
  }

  /**
   * What certificate files look like: the base64 of any bytes that start with 0x30, cut into lines in any way, with
   * line feeds or carriage returns and line feeds behind them, is accepted between the two markers.
   */
  lemma CertificateFileIsAccepted(
    der: seq<byte>, first: string, lines: seq<string>, breaks: seq<string>, after: string
  )
    requires der != [] && der[0] == 0x30 && Concatenation(lines) == Base64.Encode(Base64.STANDARD, der)
    requires first == "\n" || first == "\r\n"
    requires |lines| == |breaks| && forall s | s in breaks :: s == "\n" || s == "\r\n"
    ensures ValidatePemCertificate(Utf8.Encode(
              "-----BEGIN CERTIFICATE-----" + first + Broken(lines, breaks) + "-----END CERTIFICATE-----" + after))
         == Ok(())
  {
    var body := first + Broken(lines, breaks);
    BrokenBody(der, first, lines, breaks);
    BlockOfParts(PEM_CERTIFICATE_BEGIN, first, Broken(lines, breaks), PEM_CERTIFICATE_END, after);
    PemTextIsAccepted(CertificateText("", body, after), "", body, after, der);
  }

  lemma BlockOfParts(begin: string, first: string, rest: string, end: string, after: string)
    ensures begin + first + rest + end + after == Block("", begin, first + rest, end, after)
  {
  }
}
