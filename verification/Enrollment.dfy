/** Enrollment proofs: the length-prefixed message, the signed submission and the issued challenge. */
module Enrollment {
  import opened Errors
  import opened Int64
  import opened Text
  import opened Uuids
  import opened Credential
  import Base64
  import Utf8

  const CHALLENGE_LENGTH := 32
  const TWO_TO_THE_32: nat := 0x1_0000_0000

  type Challenge = b: seq<byte> | |b| == 32 witness seq(32, _ => 0)

  const PROOF_CONTEXT_TEXT := "infernal-law/enrollment/v1"

  /** The context as a byte string. */
  const PROOF_CONTEXT: seq<byte> :=
    seq(26, k requires 0 <= k < 26 => PROOF_CONTEXT_TEXT[k] as int)

  // ---------------------------------------------------------------- framing

  /** A 32-bit length, big-endian. */
  function Be32(n: nat): (b: seq<byte>)
    requires n < TWO_TO_THE_32
    ensures |b| == 4
  {
    [n / 256 / 256 / 256, n / 256 / 256 % 256, n / 256 % 256, n % 256]
  }

  function FromBe32(b: seq<byte>): (n: nat)
    requires |b| == 4
  {
    var high: nat := b[0];
    ((high * 256 + b[1]) * 256 + b[2]) * 256 + b[3]
  }

  lemma FromBe32OfBe32(n: nat)
    requires n < TWO_TO_THE_32
    ensures FromBe32(Be32(n)) == n
  {
  }

  lemma Be32OfFromBe32(b: seq<byte>)
    requires |b| == 4
    ensures FromBe32(b) < TWO_TO_THE_32 && Be32(FromBe32(b)) == b
  {
    var n := FromBe32(b);
    var high: nat := b[0];
    assert n / 256 == (high * 256 + b[1]) * 256 + b[2] && n % 256 == b[3];
    assert n / 256 / 256 == high * 256 + b[1] && n / 256 % 256 == b[2];
    assert n / 256 / 256 / 256 == b[0] && n / 256 / 256 % 256 == b[1];
  }

  /** A field behind its length; the cast to 32 bits drops the high part of the length. */
  function Frame(field: seq<byte>): (b: seq<byte>) {
    Be32(|field| % TWO_TO_THE_32) + field
  }

  function Frames(fields: seq<seq<byte>>): (b: seq<byte>) {
    if fields == [] then [] else Frame(fields[0]) + Frames(fields[1..])
  }

  lemma {:induction false} FramesOfAppend(fields: seq<seq<byte>>, last: seq<byte>)
    ensures Frames(fields + [last]) == Frames(fields) + Frame(last)
  {
    if fields == [] {
      assert Frames([last]) == Frame(last) + Frames([]);
      assert [] + [last] == [last];
    } else {
      assert (fields + [last])[0] == fields[0] && (fields + [last])[1..] == fields[1..] + [last];
      FramesOfAppend(fields[1..], last);
    }
  }

  /** Reads a framed message back into its fields. */
  function Unframe(b: seq<byte>): (r: Option<seq<seq<byte>>>)
    decreases |b|
  {
    if b == [] then Some([])
    else if |b| < 4 || |b| < 4 + FromBe32(b[..4]) then None
    else
      var end := 4 + FromBe32(b[..4]);
      var rest :- Unframe(b[end..]);
      Some([b[4..end]] + rest)
  }

  predicate Framable(fields: seq<seq<byte>>) {
    forall f | f in fields :: |f| < TWO_TO_THE_32
  }

  lemma UnframeOfFrame(field: seq<byte>, tail: seq<byte>)
    requires |field| < TWO_TO_THE_32 && Unframe(tail).Some?
    ensures Unframe(Frame(field) + tail) == Some([field] + Unframe(tail).value)
  {
    var b := Frame(field) + tail;
    var n := |field|;
    FromBe32OfBe32(n);
    assert b[..4] == Be32(n);
    assert b[4..4 + n] == field && b[4 + n..] == tail;
  }

  /** Fields below 2^32 bytes are read back exactly, so such messages are uniquely decodable. */
  lemma {:induction false} UnframeOfFrames(fields: seq<seq<byte>>)
    requires Framable(fields)
    ensures Unframe(Frames(fields)) == Some(fields)
  {
    if fields == [] {
    } else {
      assert fields[0] in fields;
      UnframeOfFrames(fields[1..]);
      UnframeOfFrame(fields[0], Frames(fields[1..]));
      assert fields == [fields[0]] + fields[1..];
    }
  }

  lemma FramesOfCons(field: seq<byte>, rest: seq<seq<byte>>)
    ensures Frames([field] + rest) == Frame(field) + Frames(rest)
  {
    assert ([field] + rest)[1..] == rest;
  }

  lemma FrameBehindItsLength(prefix: seq<byte>, field: seq<byte>)
    requires |prefix| == 4 && |field| == FromBe32(prefix)
    ensures |field| < TWO_TO_THE_32 && Frame(field) == prefix + field
  {
    Be32OfFromBe32(prefix);
    assert |field| % TWO_TO_THE_32 == FromBe32(prefix);
  }

  lemma UnframeSplits(b: seq<byte>) returns (field: seq<byte>, tail: seq<byte>)
    requires b != [] && Unframe(b).Some?
    ensures |field| < TWO_TO_THE_32 && b == Frame(field) + tail && |tail| < |b|
    ensures Unframe(tail).Some? && Unframe(b).value == [field] + Unframe(tail).value
  {
    var prefix := b[..4];
    field, tail := b[4..4 + FromBe32(prefix)], b[4 + FromBe32(prefix)..];
    FrameBehindItsLength(prefix, field);
    assert b == (prefix + field) + tail;
  }

  /** Conversely, whatever the decoder reads frames back to the same bytes. */
  lemma {:induction false} FramesOfUnframe(b: seq<byte>)
    requires Unframe(b).Some?
    ensures Framable(Unframe(b).value) && Frames(Unframe(b).value) == b
    decreases |b|
  {
    if b == [] {
    } else {
      var field, tail := UnframeSplits(b);
      FramesOfUnframe(tail);
      FramesOfCons(field, Unframe(tail).value);
    }
  }

  // ---------------------------------------------------------------- the proof message

  /** The nine fields of a proof: context, challenge, three ids, key, endpoint, pod and token digest. */
  function ProofFields(
    sha: Sha256, challenge: Challenge, publicKey: ClientPublicKey, endpoint: string, podUid: string, token: string
  ): (fields: seq<seq<byte>>)
  {
    [ PROOF_CONTEXT, challenge, publicKey.serviceId, publicKey.instanceId, publicKey.keyId,
      publicKey.publicKey, Utf8.Encode(endpoint), Utf8.Encode(podUid), sha(Utf8.Encode(token)) ]
  }

  function ProofBytes(
    sha: Sha256, challenge: Challenge, publicKey: ClientPublicKey, endpoint: string, podUid: string, token: string
  ): (message: seq<byte>)
  {
    Frames(ProofFields(sha, challenge, publicKey, endpoint, podUid, token))
  }

  /** Grows the message field by field. */
  method FrameAll(fields: seq<seq<byte>>) returns (message: seq<byte>)
    ensures message == Frames(fields)
  {
    message := [];
    for i := 0 to |fields|
      invariant message == Frames(fields[..i])
    {
      FramesOfAppend(fields[..i], fields[i]);
      assert fields[..i + 1] == fields[..i] + [fields[i]];
      ghost var before := message;
      message := message + Be32(|fields[i]| % TWO_TO_THE_32);
      message := message + fields[i];
      assert message == before + Frame(fields[i]);
    }
    assert fields[..|fields|] == fields;
  }

  lemma {:induction false} FramesLength(fields: seq<seq<byte>>)
    ensures |Frames(fields)| == 4 * |fields| + TotalLength(fields)
  {
    if fields != [] {
      FramesLength(fields[1..]);
    }
  }

  function TotalLength(fields: seq<seq<byte>>): (n: nat) {
    if fields == [] then 0 else |fields[0]| + TotalLength(fields[1..])
  }

  /** The exact length of a proof message. */
  lemma ProofLength(
    sha: Sha256, challenge: Challenge, publicKey: ClientPublicKey, endpoint: string, podUid: string, token: string
  )
    ensures |ProofBytes(sha, challenge, publicKey, endpoint, podUid, token)|
         == 206 + |Utf8.Encode(endpoint)| + |Utf8.Encode(podUid)|
  {
    var f := ProofFields(sha, challenge, publicKey, endpoint, podUid, token);
    ProofFieldsAreShaped(sha, challenge, publicKey, endpoint, podUid, token);
    FramesLength(f);
    TotalOfNine(f);
  }

  lemma TotalOfNine(f: seq<seq<byte>>)
    requires |f| == 9
    ensures TotalLength(f) == |f[0]| + |f[1]| + |f[2]| + |f[3]| + |f[4]| + |f[5]| + |f[6]| + |f[7]| + |f[8]|
  {
    TotalOfThree(f);
    TotalOfThree(f[3..]);
    TotalOfThree(f[6..]);
    assert f[3..][3..] == f[6..] && f[6..][3..] == [];
  }

  lemma TotalOfThree(f: seq<seq<byte>>)
    requires 3 <= |f|
    ensures TotalLength(f) == |f[0]| + |f[1]| + |f[2]| + TotalLength(f[3..])
  {
    assert f[1..][1..] == f[2..] && f[2..][1..] == f[3..];
    assert TotalLength(f[1..]) == |f[1]| + TotalLength(f[2..]);
    assert TotalLength(f[2..]) == |f[2]| + TotalLength(f[3..]);
  }

  // ---------------------------------------------------------------- reading a proof message back

  /** Nine fields, all of fixed length except the seventh and eighth. */
  predicate ProofShaped(f: seq<seq<byte>>) {
    && |f| == 9
    && |f[0]| == 26 && |f[1]| == 32 && |f[2]| == 16 && |f[3]| == 16 && |f[4]| == 16 && |f[5]| == 32
    && |f[8]| == 32
  }

  lemma ProofFieldsAreShaped(
    sha: Sha256, challenge: Challenge, publicKey: ClientPublicKey, endpoint: string, podUid: string, token: string
  )
    ensures var f := ProofFields(sha, challenge, publicKey, endpoint, podUid, token);
            ProofShaped(f) && f[6] == Utf8.Encode(endpoint) && f[7] == Utf8.Encode(podUid)
  {
  }

  lemma UnframeOfShaped(f: seq<seq<byte>>)
    requires ProofShaped(f) && |f[6]| < TWO_TO_THE_32 && |f[7]| < TWO_TO_THE_32
    ensures Unframe(Frames(f)) == Some(f)
  {
    assert forall k | 0 <= k < |f| :: |f[k]| < TWO_TO_THE_32;
    UnframeOfFrames(f);
  }

  /** The decoder reads the nine fields back out of such a message. */
  lemma ProofIsDecodable(
    sha: Sha256, challenge: Challenge, publicKey: ClientPublicKey, endpoint: string, podUid: string, token: string
  )
    requires |Utf8.Encode(endpoint)| < TWO_TO_THE_32 && |Utf8.Encode(podUid)| < TWO_TO_THE_32
    ensures Unframe(ProofBytes(sha, challenge, publicKey, endpoint, podUid, token))
         == Some(ProofFields(sha, challenge, publicKey, endpoint, podUid, token))
  {
    ProofFieldsAreShaped(sha, challenge, publicKey, endpoint, podUid, token);
    UnframeOfShaped(ProofFields(sha, challenge, publicKey, endpoint, podUid, token));
  }

  // ---------------------------------------------------------------- the layout of a proof message

  function Weighted(b0: int, b1: int, b2: int, b3: int): (n: int) {
    16777216 * b0 + 65536 * b1 + 256 * b2 + b3
  }

  /** Four big-endian bytes that hold the low 32 bits of `n`. */
  predicate LengthAt(m: seq<byte>, at: nat, n: nat) {
    && at + 4 <= |m|
    && Weighted(m[at], m[at + 1], m[at + 2], m[at + 3]) == n % 4294967296
  }

  predicate FieldAt(m: seq<byte>, at: nat, field: seq<byte>) {
    LengthAt(m, at, |field|) && at + 4 + |field| <= |m| && m[at + 4..at + 4 + |field|] == field
  }

  /** Byte by byte, where everything of fixed length stands in front of a message for these inputs. */
  predicate FrontLayout(m: seq<byte>, challenge: Challenge, publicKey: ClientPublicKey) {
    && 162 <= |m|
    && LengthAt(m, 0, 26) && (forall k | 0 <= k < 26 :: m[4 + k] == "infernal-law/enrollment/v1"[k] as int)
    && LengthAt(m, 30, 32) && m[34..66] == challenge
    && LengthAt(m, 66, 16) && m[70..86] == publicKey.serviceId
    && LengthAt(m, 86, 16) && m[90..106] == publicKey.instanceId
    && LengthAt(m, 106, 16) && m[110..126] == publicKey.keyId
    && LengthAt(m, 126, 32) && m[130..162] == publicKey.publicKey
  }

  /** Endpoint, pod id and token digest behind it. */
  predicate BackLayout(m: seq<byte>, endpoint: seq<byte>, podUid: seq<byte>, digest: Digest) {
    var e, p := |endpoint|, |podUid|;
    && |m| == 206 + e + p
    && LengthAt(m, 162, e) && m[166..166 + e] == endpoint
    && LengthAt(m, 166 + e, p) && m[170 + e..170 + e + p] == podUid
    && LengthAt(m, 170 + e + p, 32) && m[174 + e + p..] == digest
  }

  predicate Layout(
    m: seq<byte>, sha: Sha256, challenge: Challenge, publicKey: ClientPublicKey,
    endpoint: string, podUid: string, token: string
  ) {
    && FrontLayout(m, challenge, publicKey)
    && BackLayout(m, Utf8.Encode(endpoint), Utf8.Encode(podUid), sha(Utf8.Encode(token)))
  }

  lemma LengthDecision(m: seq<byte>, at: nat, n: nat)
    requires at + 4 <= |m|
    ensures LengthAt(m, at, n) <==> m[at..at + 4] == Be32(n % TWO_TO_THE_32)
  {
    var b := m[at..at + 4];
    Be32OfFromBe32(b);
    FromBe32OfBe32(n % TWO_TO_THE_32);
    assert FromBe32(b) == Weighted(m[at], m[at + 1], m[at + 2], m[at + 3]);
  }

  lemma FrameStep(m: seq<byte>, at: nat, field: seq<byte>, rest: seq<byte>)
    requires at <= |m|
    ensures m[at..] == Frame(field) + rest <==> FieldAt(m, at, field) && m[at + 4 + |field|..] == rest
  {
    if at + 4 + |field| <= |m| {
      LengthDecision(m, at, |field|);
      var tail := m[at..];
      assert tail[..4] == m[at..at + 4] && tail[4..4 + |field|] == m[at + 4..at + 4 + |field|];
      assert tail[4 + |field|..] == m[at + 4 + |field|..];
      assert tail == tail[..4] + tail[4..4 + |field|] + tail[4 + |field|..];
      var whole := Frame(field) + rest;
      assert whole[..4] == Be32(|field| % TWO_TO_THE_32) && whole[4..4 + |field|] == field && whole[4 + |field|..] == rest;
    }
  }

  /** The fields stand from `at` on, one behind the other, up to the end of the message. */
  predicate FieldsAt(m: seq<byte>, at: nat, fields: seq<seq<byte>>)
    decreases |fields|
  {
    if fields == [] then at == |m|
    else FieldAt(m, at, fields[0]) && FieldsAt(m, at + 4 + |fields[0]|, fields[1..])
  }

  lemma {:induction false} FramesStand(m: seq<byte>, at: nat, fields: seq<seq<byte>>)
    requires at <= |m|
    ensures m[at..] == Frames(fields) <==> FieldsAt(m, at, fields)
    decreases |fields|
  {
    if fields != [] {
      FrameStep(m, at, fields[0], Frames(fields[1..]));
      if FieldAt(m, at, fields[0]) {
        FramesStand(m, at + 4 + |fields[0]|, fields[1..]);
      }
    }
  }

  lemma FieldsAtStep(m: seq<byte>, at: nat, f: seq<seq<byte>>, k: nat)
    requires k < |f|
    ensures FieldsAt(m, at, f[k..]) <==> FieldAt(m, at, f[k]) && FieldsAt(m, at + 4 + |f[k]|, f[k + 1..])
  {
    assert f[k..][1..] == f[k + 1..];
  }

  lemma ThreeFieldsAt(m: seq<byte>, at: nat, f: seq<seq<byte>>)
    requires |f| >= 3
    ensures FieldsAt(m, at, f) <==>
            && FieldAt(m, at, f[0])
            && FieldAt(m, at + 4 + |f[0]|, f[1])
            && FieldAt(m, at + 8 + |f[0]| + |f[1]|, f[2])
            && FieldsAt(m, at + 12 + |f[0]| + |f[1]| + |f[2]|, f[3..])
  {
    assert f[0..] == f;
    FieldsAtStep(m, at, f, 0);
    FieldsAtStep(m, at + 4 + |f[0]|, f, 1);
    FieldsAtStep(m, at + 8 + |f[0]| + |f[1]|, f, 2);
  }

  /** The six fields of fixed length in front, at their offsets. */
  lemma FrontFieldsAt(m: seq<byte>, f: seq<seq<byte>>)
    requires ProofShaped(f)
    ensures FieldsAt(m, 0, f) <==>
            && FieldAt(m, 0, f[0]) && FieldAt(m, 30, f[1]) && FieldAt(m, 66, f[2])
            && FieldAt(m, 86, f[3]) && FieldAt(m, 106, f[4]) && FieldAt(m, 126, f[5])
            && FieldsAt(m, 162, f[6..])
  {
    ThreeFieldsAt(m, 0, f);
    ThreeFieldsAt(m, 86, f[3..]);
    assert f[3..][3..] == f[6..];
  }

  /** The three fields behind them. */
  lemma BackFieldsAt(m: seq<byte>, f: seq<seq<byte>>)
    requires |f| == 3 && |f[2]| == 32
    ensures var e, p := |f[0]|, |f[1]|;
            FieldsAt(m, 162, f) <==>
            && |m| == 206 + e + p
            && FieldAt(m, 162, f[0]) && FieldAt(m, 166 + e, f[1]) && FieldAt(m, 170 + e + p, f[2])
  {
    ThreeFieldsAt(m, 162, f);
  }

  /** The context is the text itself, in ASCII. */
  lemma ContextDecision(b: seq<byte>)
    requires |b| == 26
    ensures b == PROOF_CONTEXT <==> forall k | 0 <= k < 26 :: b[k] == "infernal-law/enrollment/v1"[k] as int
  {
  }

  lemma ContextAt(m: seq<byte>)
    requires 30 <= |m|
    ensures FieldAt(m, 0, PROOF_CONTEXT) <==>
            LengthAt(m, 0, 26) && forall k | 0 <= k < 26 :: m[4 + k] == "infernal-law/enrollment/v1"[k] as int
  {
    var b := m[4..30];
    ContextDecision(b);
    assert forall k | 0 <= k < 26 :: b[k] == m[4 + k];
  }

  lemma FrontLayoutDecision(m: seq<byte>, challenge: Challenge, publicKey: ClientPublicKey, f: seq<seq<byte>>)
    requires ProofShaped(f) && 162 <= |m|
    requires f[..6] == [PROOF_CONTEXT, challenge, publicKey.serviceId, publicKey.instanceId,
                        publicKey.keyId, publicKey.publicKey]
    ensures FieldsAt(m, 0, f) <==> FrontLayout(m, challenge, publicKey) && FieldsAt(m, 162, f[6..])
  {
    var front := f[..6];
    assert front[0] == f[0] && front[1] == f[1] && front[2] == f[2];
    assert front[3] == f[3] && front[4] == f[4] && front[5] == f[5];
    FrontFieldsAt(m, f);
    ContextAt(m);
  }

  lemma BackLayoutDecision(m: seq<byte>, f: seq<seq<byte>>)
    requires |f| == 3 && |f[2]| == 32
    ensures FieldsAt(m, 162, f) <==> BackLayout(m, f[0], f[1], f[2])
  {
    BackFieldsAt(m, f);
    var at := 174 + |f[0]| + |f[1]|;
    if |m| == at + 32 {
      assert m[at..] == m[at..at + 32];
    }
  }

  /** A message has this layout if and only if it is the proof of these inputs. */
  lemma LayoutDecision(
    m: seq<byte>, sha: Sha256, challenge: Challenge, publicKey: ClientPublicKey,
    endpoint: string, podUid: string, token: string
  )
    ensures Layout(m, sha, challenge, publicKey, endpoint, podUid, token) <==>
            m == ProofBytes(sha, challenge, publicKey, endpoint, podUid, token)
  {
    var f := ProofFields(sha, challenge, publicKey, endpoint, podUid, token);
    ProofFieldsAreShaped(sha, challenge, publicKey, endpoint, podUid, token);
    FramesStand(m, 0, f);
    assert m[0..] == m;
    ProofLength(sha, challenge, publicKey, endpoint, podUid, token);
    if 162 <= |m| {
      FrontLayoutDecision(m, challenge, publicKey, f);
      BackLayoutDecision(m, f[6..]);
    }
  }

  method ProofMessage(
    sha: Sha256, challenge: Challenge, publicKey: ClientPublicKey, endpoint: string, podUid: string, token: string
  ) returns (message: seq<byte>)
    ensures message == ProofBytes(sha, challenge, publicKey, endpoint, podUid, token)
    ensures Layout(message, sha, challenge, publicKey, endpoint, podUid, token)
  {
    message := FrameAll(ProofFields(sha, challenge, publicKey, endpoint, podUid, token));
    LayoutDecision(message, sha, challenge, publicKey, endpoint, podUid, token);
  }

  // ---------------------------------------------------------------- submissions

  datatype EnrollmentSubmission = EnrollmentSubmission(
    serviceId: string,
    instanceId: string,
    keyId: string,
    algorithm: string,
    publicKey: string,
    challenge: string,
    endpoint: string,
    podUid: string,
    workloadToken: string,
    signature: string
  )

  function Sign(
    sha: Sha256, credential: ClientCredential, challenge: Challenge,
    endpoint: string, podUid: string, workloadToken: string
  ): (r: Result<EnrollmentSubmission>)
  {
    var endpoint := Trim(endpoint);
    var podUid := Trim(podUid);
    if endpoint == "https://" || !("https://" <= endpoint) then
      Err(InvalidRequestPart("endpoint"))
    else if podUid == "" then
      Err(InvalidRequestPart("pod_uid"))
    else if workloadToken == "" then
      Err(InvalidRequestPart("workload_token"))
    else
      var publicKey := credential.publicKey;
      var message := ProofBytes(sha, challenge, publicKey, endpoint, podUid, workloadToken);
      var signature := credential.sign(message);
      Ok(EnrollmentSubmission(
        ToText(publicKey.serviceId), ToText(publicKey.instanceId), ToText(publicKey.keyId), ALGORITHM,
        Base64.Encode(Base64.URL_SAFE_NO_PAD, publicKey.publicKey),
        Base64.Encode(Base64.URL_SAFE_NO_PAD, challenge),
        endpoint, podUid, workloadToken,
        Base64.Encode(Base64.URL_SAFE_NO_PAD, signature)))
  }

  /** An https URL with something after the scheme. */
  ghost predicate HttpsUrl(s: string) {
    exists rest :: rest != "" && s == "https://" + rest
  }

  /**
   * Signing succeeds exactly when, after trimming, the endpoint is an https URL and the pod id is not empty, and the
   * token is not empty; the first failure names the error. The submission carries the trimmed fields and the token.
   */
  lemma SubmissionDecision(
    sha: Sha256, credential: ClientCredential, challenge: Challenge,
    endpoint: string, podUid: string, workloadToken: string
  )
    ensures var r := Sign(sha, credential, challenge, endpoint, podUid, workloadToken);
            if !HttpsUrl(Trim(endpoint)) then r == Err(InvalidRequestPart("endpoint"))
            else if Blank(podUid) then r == Err(InvalidRequestPart("pod_uid"))
            else if workloadToken == "" then r == Err(InvalidRequestPart("workload_token"))
            else r.Ok? && r.value.endpoint == Trim(endpoint) && r.value.podUid == Trim(podUid)
                 && r.value.workloadToken == workloadToken && r.value.algorithm == "ed25519"
  {
    HttpsUrlDecision(Trim(endpoint));
    BlankDecision(podUid);
  }

  lemma HttpsUrlDecision(s: string)
    ensures HttpsUrl(s) <==> s != "https://" && "https://" <= s
  {
    if s != "https://" && "https://" <= s {
      assert s == "https://" + s[8..];
    }
  }

  lemma BlankDecision(s: string)
    ensures Blank(s) <==> Trim(s) == ""
  {
    var before, after := TrimSplits(s);
    if Blank(s) {
      assert s + "" + "" == s;
      TrimIsTheTrimmedCore(s, "", "");
    }
  }

  function DecodeFixed(text: string, length: nat): (r: Option<seq<byte>>)
    ensures r.Some? ==> |r.value| == length
  {
    var b :- Base64.Decode(Base64.URL_SAFE_NO_PAD, text);
    if |b| == length then Some(b) else None
  }

  /** A recipient's view of a submission: the identity it names, its challenge and its signature. */
  datatype Recomputed = Recomputed(
    publicKey: ClientPublicKey,
    challenge: Challenge,
    message: seq<byte>,
    signature: Signature
  )

  /** Decodes the texts of a submission, trims its fields again and rebuilds the proof message from them. */
  function Recompute(sha: Sha256, s: EnrollmentSubmission): (r: Option<Recomputed>) {
    var serviceId :- Parse(s.serviceId);
    var instanceId :- Parse(s.instanceId);
    var keyId :- Parse(s.keyId);
    var key :- DecodeFixed(s.publicKey, PUBLIC_KEY_LENGTH);
    var challenge :- DecodeFixed(s.challenge, CHALLENGE_LENGTH);
    var signature :- DecodeFixed(s.signature, SIGNATURE_LENGTH);
    var publicKey := ClientPublicKey(serviceId, instanceId, keyId, key);
    Some(Recomputed(
      publicKey, challenge,
      ProofBytes(sha, challenge, publicKey, Trim(s.endpoint), Trim(s.podUid), s.workloadToken), signature))
  }

  lemma RecomputedMessage(sha: Sha256, s: EnrollmentSubmission)
    requires Recompute(sha, s).Some?
    ensures var r := Recompute(sha, s).value;
            r.message == ProofBytes(sha, r.challenge, r.publicKey, Trim(s.endpoint), Trim(s.podUid), s.workloadToken)
  {
  }

  /** A submission reproduces its own proof: what is rebuilt from its texts is what was signed, byte for byte. */
  lemma SubmissionReproducesItsProof(
    sha: Sha256, credential: ClientCredential, challenge: Challenge,
    endpoint: string, podUid: string, workloadToken: string
  )
    requires Sign(sha, credential, challenge, endpoint, podUid, workloadToken).Ok?
    ensures var message := ProofBytes(sha, challenge, credential.publicKey, Trim(endpoint), Trim(podUid), workloadToken);
            Recompute(sha, Sign(sha, credential, challenge, endpoint, podUid, workloadToken).value)
            == Some(Recomputed(credential.publicKey, challenge, message, credential.sign(message)))
  {
    var key := credential.publicKey;
    var message := ProofBytes(sha, challenge, key, Trim(endpoint), Trim(podUid), workloadToken);
    ParseOfToText(key.serviceId);
    ParseOfToText(key.instanceId);
    ParseOfToText(key.keyId);
    Base64.DecodeOfEncode(Base64.URL_SAFE_NO_PAD, key.publicKey);
    Base64.DecodeOfEncode(Base64.URL_SAFE_NO_PAD, challenge);
    Base64.DecodeOfEncode(Base64.URL_SAFE_NO_PAD, credential.sign(message));
    TrimIsIdempotent(endpoint);
    TrimIsIdempotent(podUid);
  }

  /** Every text of a submission, and what its signature is made over: the message laid out for the trimmed fields. */
  lemma SubmissionTexts(
    sha: Sha256, credential: ClientCredential, challenge: Challenge,
    endpoint: string, podUid: string, workloadToken: string, m: seq<byte>
  )
    requires Sign(sha, credential, challenge, endpoint, podUid, workloadToken).Ok?
    requires Layout(m, sha, challenge, credential.publicKey, Trim(endpoint), Trim(podUid), workloadToken)
    ensures Sign(sha, credential, challenge, endpoint, podUid, workloadToken).value
         == EnrollmentSubmission(
              ToText(credential.publicKey.serviceId),
              ToText(credential.publicKey.instanceId),
              ToText(credential.publicKey.keyId),
              "ed25519",
              Base64.Encode(Base64.URL_SAFE_NO_PAD, credential.publicKey.publicKey),
              Base64.Encode(Base64.URL_SAFE_NO_PAD, challenge),
              Trim(endpoint), Trim(podUid), workloadToken,
              Base64.Encode(Base64.URL_SAFE_NO_PAD, credential.sign(m)))
  {
    LayoutDecision(m, sha, challenge, credential.publicKey, Trim(endpoint), Trim(podUid), workloadToken);
  }

  /** Whitespace around the endpoint and the pod id changes nothing: same submission and signature, or same error. */
  lemma SigningIgnoresPadding(
    sha: Sha256, credential: ClientCredential, challenge: Challenge,
    endpoint: string, podUid: string, workloadToken: string,
    e0: string, e1: string, p0: string, p1: string
  )
    requires Blank(e0) && Blank(e1) && Blank(p0) && Blank(p1)
    ensures Sign(sha, credential, challenge, e0 + endpoint + e1, p0 + podUid + p1, workloadToken)
         == Sign(sha, credential, challenge, endpoint, podUid, workloadToken)
  {
    TrimIgnoresPadding(e0, endpoint, e1);
    TrimIgnoresPadding(p0, podUid, p1);
  }

  // ---------------------------------------------------------------- issued challenges

  datatype IssuedChallenge = IssuedChallenge(serviceId: string, challenge: string, audience: string, expiresAt: I64)

  function ChallengeBytes(issued: IssuedChallenge): (r: Result<Challenge>) {
    var bytes :- Base64.Decode(Base64.URL_SAFE_NO_PAD, issued.challenge).OkOr(MalformedEnrollmentResponse);
    if |bytes| == CHALLENGE_LENGTH then Ok(bytes) else Err(MalformedEnrollmentResponse)
  }

  /** An issued challenge decodes exactly when it is the encoding of 32 bytes. */
  lemma ChallengeDecision(issued: IssuedChallenge, challenge: Challenge)
    ensures ChallengeBytes(issued) == Ok(challenge) <==>
            issued.challenge == Base64.Encode(Base64.URL_SAFE_NO_PAD, challenge)
    ensures ChallengeBytes(issued).Err? ==> ChallengeBytes(issued).error == MalformedEnrollmentResponse
  {
    Base64.DecodeOfEncode(Base64.URL_SAFE_NO_PAD, challenge);
    if ChallengeBytes(issued).Ok? {
      Base64.EncodeOfDecode(Base64.URL_SAFE_NO_PAD, issued.challenge);
    }
  }

  /** A submission built on a decoded challenge carries the issued text, character for character. */
  lemma ChallengeIsEchoed(
    sha: Sha256, credential: ClientCredential, issued: IssuedChallenge,
    endpoint: string, podUid: string, workloadToken: string
  )
    requires ChallengeBytes(issued).Ok?
    requires Sign(sha, credential, ChallengeBytes(issued).value, endpoint, podUid, workloadToken).Ok?
    ensures Sign(sha, credential, ChallengeBytes(issued).value, endpoint, podUid, workloadToken).value.challenge
         == issued.challenge
  {
    ChallengeDecision(issued, ChallengeBytes(issued).value);
  }
}
