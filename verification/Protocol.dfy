/**
 * The two signing protocols run together under shared keys. Signers sign requests, enrollments and, through the
 * credential's public signing method, raw bytes; the environment delivers any request under any key at any time; a
 * recipient decides. Signatures are ideal: a check passes exactly when that key signed that message that way before.
 */
module Protocol {
  import opened Errors
  import opened Int64
  import opened Text
  import opened Uuids
  import opened Credential
  import opened Wire
  import opened Request
  import opened Verify
  import opened RoundTrip
  import opened Runs
  import Decodability
  import Enrollment
  import Decimal
  import Utf8

  /** A key signed a message with a signature. */
  type Record = (KeyBytes, seq<byte>, Signature)

  datatype Step =
    | SignRequest(parts: RequestParts, key: ClientPublicKey, created: I64, expires: I64, nonce: string,
                  signature: Signature)
    | SignEnrollment(key: ClientPublicKey, challenge: Enrollment.Challenge, endpoint: string, podUid: string,
                     token: string, signature: Signature)
    | SignRaw(keyBytes: KeyBytes, message: seq<byte>, signature: Signature)
    | Deliver(request: IncomingRequest, key: ClientPublicKey, now: I64)

  /** What a request-signing step hands back, its signer having answered with the step's signature. */
  function Signed(sha: Sha256, step: Step): (r: Result<SignedRequest>)
    requires step.SignRequest?
  {
    SignWith(sha, step.parts, step.key, step.created, step.expires, step.nonce, _ => step.signature)
  }

  function Enrolled(sha: Sha256, step: Step): (r: Result<Enrollment.EnrollmentSubmission>)
    requires step.SignEnrollment?
  {
    var credential := ClientCredential(step.key, _ => step.signature);
    Enrollment.Sign(sha, credential, step.challenge, step.endpoint, step.podUid, step.token)
  }

  /** What a step makes a key sign: nothing when the call fails before signing. */
  function Emitted(sha: Sha256, step: Step): (r: Option<Record>) {
    match step
    case SignRequest(parts, key, created, expires, nonce, signature) =>
      if Signed(sha, step).Ok? then
        Some((key.publicKey, MessageToSign(sha, parts, key, created, expires, nonce), signature))
      else None
    case SignEnrollment(key, challenge, endpoint, podUid, token, signature) =>
      if Enrolled(sha, step).Ok? then
        Some((key.publicKey, Enrollment.ProofBytes(sha, challenge, key, Trim(endpoint), Trim(podUid), token), signature))
      else None
    case SignRaw(keyBytes, message, signature) => Some((keyBytes, message, signature))
    case Deliver(_, _, _) => None
  }

  function Ideal(log: set<Record>): (check: Checker) {
    (key, message, signature) => if (key, message, signature) in log then Ok(()) else Err(InvalidSignature)
  }

  /** A delivery that was accepted, and at which step. */
  datatype Acceptance = Acceptance(
    at: nat, request: IncomingRequest, key: ClientPublicKey, now: I64, verified: VerifiedRequest
  )

  function Decision(sha: Sha256, log: set<Record>, at: nat, step: Step): (r: Option<Acceptance>) {
    if !step.Deliver? then None
    else
      match VerifyIncoming(sha, Ideal(log), step.request, step.key, step.now)
      case Ok(verified) => Some(Acceptance(at, step.request, step.key, step.now, verified))
      case Err(_) => None
  }

  function Emitting(sha: Sha256): (emit: Step -> Option<Record>) {
    step => Emitted(sha, step)
  }

  function Deciding(sha: Sha256): (decide: (set<Record>, nat, Step) -> Option<Acceptance>) {
    (log: set<Record>, at: nat, step: Step) => Decision(sha, log, at, step)
  }

  /** The log of signatures and the acceptances on record after a run. */
  function After(sha: Sha256, steps: seq<Step>): (w: World<Record, Acceptance>) {
    Run(Emitting(sha), Deciding(sha), steps)
  }

  lemma LoggedByAStep(sha: Sha256, steps: seq<Step>, record: Record) returns (j: nat)
    requires record in After(sha, steps).log
    ensures j < |steps| && Emitted(sha, steps[j]) == Some(record)
  {
    LogOrigin(Emitting(sha), Deciding(sha), steps, record);
    var emit := Emitting(sha);
    j :| 0 <= j < |steps| && emit(steps[j]) == Some(record);
  }

  lemma StepIsLogged(sha: Sha256, steps: seq<Step>, j: nat)
    requires j < |steps| && Emitted(sha, steps[j]).Some?
    ensures Emitted(sha, steps[j]).value in After(sha, steps).log
  {
    var emit := Emitting(sha);
    assert emit(steps[j]) == Emitted(sha, steps[j]);
    LogOrigin(emit, Deciding(sha), steps, Emitted(sha, steps[j]).value);
  }

  /** Every acceptance on record is a delivery the recipient accepted against the log of that moment. */
  lemma AcceptanceOrigin(sha: Sha256, steps: seq<Step>, a: Acceptance)
    requires a in After(sha, steps).accepted
    ensures a.at < |steps| && steps[a.at] == Deliver(a.request, a.key, a.now)
    ensures VerifyIncoming(sha, Ideal(After(sha, steps[..a.at]).log), a.request, a.key, a.now) == Ok(a.verified)
  {
    var at := DecisionOrigin(Emitting(sha), Deciding(sha), steps, a);
    assert Decision(sha, After(sha, steps[..at]).log, at, steps[at]) == Some(a);
  }

  /** Conversely, every delivery the recipient accepts is put on record. */
  lemma AcceptanceIsRecorded(sha: Sha256, steps: seq<Step>, a: Acceptance)
    requires a.at < |steps| && steps[a.at] == Deliver(a.request, a.key, a.now)
    requires VerifyIncoming(sha, Ideal(After(sha, steps[..a.at]).log), a.request, a.key, a.now) == Ok(a.verified)
    ensures a in After(sha, steps).accepted
  {
    assert Decision(sha, After(sha, steps[..a.at]).log, a.at, steps[a.at]) == Some(a);
    DecisionIsKept(Emitting(sha), Deciding(sha), steps, a.at, a);
  }

  // ---------------------------------------------------------------- what can stand behind a delivery

  predicate Collision(sha: Sha256, a: seq<byte>, b: seq<byte>) {
    a != b && sha(a) == sha(b)
  }

  /**
   * A request-signing step stands behind a delivery: it succeeded under the same public key record, the delivered
   * texts are those it handed back, its body is the delivered one unless SHA-256 collides, and its window is open.
   */
  predicate SignedBehind(sha: Sha256, step: Step, request: IncomingRequest, key: ClientPublicKey, now: I64) {
    && step.SignRequest?
    && Signed(sha, step).Ok?
    && step.key == key
    && request == WithBody(Delivered(Signed(sha, step).value), request.parts.body)
    && (request.parts.body == step.parts.body || Collision(sha, request.parts.body, step.parts.body))
    && InWindow(step.created, step.expires, now)
  }

  /** A raw signing step stands behind a delivery only by having signed the base of that very request. */
  predicate RawBehind(
    sha: Sha256, step: Step, request: IncomingRequest, key: ClientPublicKey, now: I64, t: InputTexts
  ) {
    && step.SignRaw?
    && Acceptable(sha, Ideal({(step.keyBytes, step.message, step.signature)}), request, key, now, t, step.signature)
  }

  ghost predicate Behind(sha: Sha256, step: Step, request: IncomingRequest, key: ClientPublicKey, now: I64) {
    SignedBehind(sha, step, request, key, now) || exists t :: RawBehind(sha, step, request, key, now, t)
  }

  /** The lines of the base an incoming request claims. */
  function IncomingLines(request: IncomingRequest, t: InputTexts): (b: BaseLines)
    ensures BaseText(b) == IncomingBase(request, t)
  {
    BaseLines(request.parts.verb, TargetUri(request.parts), request.contentDigest, request.parts.contentType,
              ToText(request.serviceId), ToText(request.instanceId), ToText(request.parts.requestId),
              ParametersText(t.created, t.expires, t.nonce, t.keyId))
  }

  /** The lines of the base a signer is handed. */
  function SignedLines(
    sha: Sha256, parts: RequestParts, key: ClientPublicKey, created: I64, expires: I64, nonce: string
  ): (b: BaseLines)
    ensures Utf8.Encode(BaseText(b)) == MessageToSign(sha, parts, key, created, expires, nonce)
  {
    BaseLines(parts.verb, TargetUri(parts), ContentDigest(sha, parts.body), parts.contentType,
              ToText(key.serviceId), ToText(key.instanceId), ToText(parts.requestId),
              SignatureParameters(created, expires, nonce, key.keyId))
  }

  lemma BaseStartsWithQuote(b: BaseLines)
    ensures Utf8.Encode(BaseText(b)) != [] && Utf8.Encode(BaseText(b))[0] == '\"' as int
  {
    assert BaseText(b)[0] == '\"';
  }

  lemma ProofStartsWithZero(
    sha: Sha256, challenge: Enrollment.Challenge, key: ClientPublicKey, endpoint: string, podUid: string, token: string
  )
    ensures Enrollment.ProofBytes(sha, challenge, key, endpoint, podUid, token) != []
    ensures Enrollment.ProofBytes(sha, challenge, key, endpoint, podUid, token)[0] == 0
  {
    var f := Enrollment.ProofFields(sha, challenge, key, endpoint, podUid, token);
    Enrollment.ProofFieldsAreShaped(sha, challenge, key, endpoint, podUid, token);
    assert Enrollment.Frame(f[0])[0] == 0;
  }

  /** The two protocols never sign the same bytes: an enrollment proof cannot stand in for a request, nor the reverse. */
  lemma ProofIsNoBase(
    sha: Sha256, challenge: Enrollment.Challenge, key: ClientPublicKey, endpoint: string, podUid: string, token: string,
    b: BaseLines
  )
    ensures Enrollment.ProofBytes(sha, challenge, key, endpoint, podUid, token) != Utf8.Encode(BaseText(b))
  {
    BaseStartsWithQuote(b);
    ProofStartsWithZero(sha, challenge, key, endpoint, podUid, token);
  }

  /** Equal signed bytes mean equal requests up to the body, and equal digests of the bodies. */
  lemma EqualMessages(
    sha: Sha256, request: IncomingRequest, t: InputTexts,
    parts: RequestParts, key: ClientPublicKey, created: I64, expires: I64, nonce: string
  )
    requires request.contentDigest == ContentDigest(sha, request.parts.body)
    requires Utf8.Encode(IncomingBase(request, t)) == MessageToSign(sha, parts, key, created, expires, nonce)
    ensures request.parts == parts.(body := request.parts.body)
    ensures request.serviceId == key.serviceId && request.instanceId == key.instanceId
    ensures request.contentDigest == ContentDigest(sha, parts.body) && sha(request.parts.body) == sha(parts.body)
    ensures ParametersText(t.created, t.expires, t.nonce, t.keyId)
         == SignatureParameters(created, expires, nonce, key.keyId)
  {
    var parameters := SignatureParameters(created, expires, nonce, key.keyId);
    var p := request.parts;
    Utf8.EncodeIsInjective(
      IncomingBase(request, t),
      SignatureBase(parts.verb, TargetUri(parts), ContentDigest(sha, parts.body), parts.contentType,
                    key.serviceId, key.instanceId, parts.requestId, parameters));
    PartsAreSingleLines(p);
    PartsAreSingleLines(parts);
    ContentDigestIsOneLine(sha, p.body);
    ContentDigestIsOneLine(sha, parts.body);
    SignatureBaseIsInjective(
      p.verb, TargetUri(p), request.contentDigest, p.contentType, request.serviceId, request.instanceId, p.requestId,
      ParametersText(t.created, t.expires, t.nonce, t.keyId),
      parts.verb, TargetUri(parts), ContentDigest(sha, parts.body), parts.contentType,
      key.serviceId, key.instanceId, parts.requestId, parameters);
    TargetUriIsInjective(p, parts);
    ContentDigestDeterminesTheHash(sha, p.body, parts.body);
  }

  /** A request-signing step that emitted the record an acceptable delivery relies on stands behind that delivery. */
  lemma SigningStepIsBehind(
    sha: Sha256, check: Checker, step: Step, request: IncomingRequest, key: ClientPublicKey, now: I64,
    t: InputTexts, signature: Signature
  )
    requires Acceptable(sha, check, request, key, now, t, signature)
    requires step.SignRequest?
    requires Emitted(sha, step) == Some((key.publicKey, Utf8.Encode(IncomingBase(request, t)), signature))
    ensures SignedBehind(sha, step, request, key, now)
  {
    EqualMessages(sha, request, t, step.parts, step.key, step.created, step.expires, step.nonce);
    GrammarIsAccepted(request.signatureInput, t);
    ParseOfSignatureParameters(step.created, step.expires, step.nonce, step.key.keyId);
  }

  /** The converse: a step that stands behind a delivery makes the recipient accept it, to the step's own values. */
  lemma BehindIsAccepted(
    sha: Sha256, check: Checker, step: Step, request: IncomingRequest, key: ClientPublicKey, now: I64
  )
    requires SignedBehind(sha, step, request, key, now)
    requires var message := MessageToSign(sha, step.parts, step.key, step.created, step.expires, step.nonce);
             check(key.publicKey, message, step.signature).Ok?
    ensures VerifyIncoming(sha, check, request, key, now)
         == Ok(VerifiedRequest(key.serviceId, key.instanceId, key.keyId, step.parts.requestId,
                               step.created, step.expires))
  {
    SignedThenVerified(sha, check, step.parts, step.key, step.created, step.expires, step.nonce,
                       _ => step.signature, request.parts.body, now);
  }

  // ---------------------------------------------------------------- authenticity

  /**
   * After any run, a delivery is accepted if and only if an earlier step stands behind it: a request-signing call
   * for that very request under that very key, or a raw signature over exactly its base. Enrollments never count.
   */
  lemma DeliveryDecision(sha: Sha256, steps: seq<Step>, request: IncomingRequest, key: ClientPublicKey, now: I64)
    ensures VerifyIncoming(sha, Ideal(After(sha, steps).log), request, key, now).Ok? <==>
            exists j | 0 <= j < |steps| :: Behind(sha, steps[j], request, key, now)
  {
    var check := Ideal(After(sha, steps).log);
    if VerifyIncoming(sha, check, request, key, now).Ok? {
      var j := AcceptedHasStepBehind(sha, steps, request, key, now);
    } else if j :| 0 <= j < |steps| && Behind(sha, steps[j], request, key, now) {
      StepBehindIsAccepted(sha, steps, j, request, key, now);
    }
  }

  lemma EnrollmentEmitsNoBase(sha: Sha256, step: Step, b: BaseLines)
    requires step.SignEnrollment? && Emitted(sha, step).Some?
    ensures Emitted(sha, step).value.1 != Utf8.Encode(BaseText(b))
  {
    ProofIsNoBase(sha, step.challenge, step.key, Trim(step.endpoint), Trim(step.podUid), step.token, b);
  }

  /** Whatever step emitted the record an acceptable delivery relies on, it stands behind that delivery. */
  lemma EmittingStepIsBehind(
    sha: Sha256, check: Checker, step: Step, request: IncomingRequest, key: ClientPublicKey, now: I64,
    t: InputTexts, signature: Signature
  )
    requires Acceptable(sha, check, request, key, now, t, signature)
    requires Emitted(sha, step) == Some((key.publicKey, Utf8.Encode(IncomingBase(request, t)), signature))
    ensures step.SignRequest? || step.SignRaw?
    ensures step.SignRequest? ==> SignedBehind(sha, step, request, key, now)
    ensures step.SignRaw? ==> RawBehind(sha, step, request, key, now, t)
  {
    if step.SignRequest? {
      SigningStepIsBehind(sha, check, step, request, key, now, t, signature);
    } else if step.SignEnrollment? {
      EnrollmentEmitsNoBase(sha, step, IncomingLines(request, t));
    }
  }

  lemma AcceptedHasStepBehind(
    sha: Sha256, steps: seq<Step>, request: IncomingRequest, key: ClientPublicKey, now: I64
  ) returns (j: nat)
    requires VerifyIncoming(sha, Ideal(After(sha, steps).log), request, key, now).Ok?
    ensures j < |steps| && Behind(sha, steps[j], request, key, now)
  {
    var check := Ideal(After(sha, steps).log);
    var t, signature := AcceptedIsAcceptable(sha, check, request, key, now);
    var message := Utf8.Encode(IncomingBase(request, t));
    j := LoggedByAStep(sha, steps, (key.publicKey, message, signature));
    EmittingStepIsBehind(sha, check, steps[j], request, key, now, t, signature);
  }

  lemma StepBehindIsAccepted(
    sha: Sha256, steps: seq<Step>, j: nat, request: IncomingRequest, key: ClientPublicKey, now: I64
  )
    requires j < |steps| && Behind(sha, steps[j], request, key, now)
    ensures VerifyIncoming(sha, Ideal(After(sha, steps).log), request, key, now).Ok?
  {
    if SignedBehind(sha, steps[j], request, key, now) {
      SignedStepIsAccepted(sha, steps, j, request, key, now);
    } else {
      var t :| RawBehind(sha, steps[j], request, key, now, t);
      RawStepIsAccepted(sha, steps, j, request, key, now, t);
    }
  }

  lemma SignedStepIsAccepted(
    sha: Sha256, steps: seq<Step>, j: nat, request: IncomingRequest, key: ClientPublicKey, now: I64
  )
    requires j < |steps| && SignedBehind(sha, steps[j], request, key, now)
    ensures VerifyIncoming(sha, Ideal(After(sha, steps).log), request, key, now)
         == Ok(VerifiedRequest(key.serviceId, key.instanceId, key.keyId, steps[j].parts.requestId,
                               steps[j].created, steps[j].expires))
  {
    StepIsLogged(sha, steps, j);
    BehindIsAccepted(sha, Ideal(After(sha, steps).log), steps[j], request, key, now);
  }

  lemma RawStepIsAccepted(
    sha: Sha256, steps: seq<Step>, j: nat, request: IncomingRequest, key: ClientPublicKey, now: I64, t: InputTexts
  )
    requires j < |steps| && RawBehind(sha, steps[j], request, key, now, t)
    ensures VerifyIncoming(sha, Ideal(After(sha, steps).log), request, key, now).Ok?
  {
    StepIsLogged(sha, steps, j);
    AcceptableIsAccepted(sha, Ideal(After(sha, steps).log), request, key, now, t, steps[j].signature);
  }

  /** A run in which this key is never used on raw bytes that open like a signature base. */
  predicate NoRawBases(steps: seq<Step>, keyBytes: KeyBytes) {
    forall j | 0 <= j < |steps| && steps[j].SignRaw? && steps[j].keyBytes == keyBytes ::
      steps[j].message == [] || steps[j].message[0] != '\"' as int
  }

  /**
   * Authenticity over every run: each acceptance on record has an earlier request-signing call under the same public
   * key record that handed back the delivered texts, for the same parts, and the verified values are that call's;
   * the body is the signed one or an explicit SHA-256 collision with it. What other keys sign does not matter.
   */
  lemma AcceptancesAreAuthentic(sha: Sha256, steps: seq<Step>, a: Acceptance)
    requires NoRawBases(steps, a.key.publicKey) && a in After(sha, steps).accepted
    ensures exists j | 0 <= j < a.at < |steps| ::
              && SignedBehind(sha, steps[j], a.request, a.key, a.now)
              && a.verified == VerifiedRequest(steps[j].key.serviceId, steps[j].key.instanceId, steps[j].key.keyId,
                                               steps[j].parts.requestId, steps[j].created, steps[j].expires)
  {
    AcceptanceOrigin(sha, steps, a);
    var earlier := steps[..a.at];
    var j := AcceptedHasStepBehind(sha, earlier, a.request, a.key, a.now);
    assert steps[j] == earlier[j];
    RawStepsAreNotBehind(sha, steps[j], a.request, a.key, a.now);
    SignedStepIsAccepted(sha, earlier, j, a.request, a.key, a.now);
  }

  lemma RawStepsAreNotBehind(sha: Sha256, step: Step, request: IncomingRequest, key: ClientPublicKey, now: I64)
    requires step.SignRaw? && step.keyBytes == key.publicKey ==>
               step.message == [] || step.message[0] != '\"' as int
    requires Behind(sha, step, request, key, now)
    ensures SignedBehind(sha, step, request, key, now)
  {
    if t :| RawBehind(sha, step, request, key, now, t) {
      BaseStartsWithQuote(IncomingLines(request, t));
    }
  }

  lemma HonestStepIsBehind(sha: Sha256, step: Step, now: I64)
    requires step.SignRequest?
    requires ValidWindow(step.created, step.expires) && NonceText(step.nonce)
    requires InWindow(step.created, step.expires, now)
    ensures Signed(sha, step).Ok? && SignedBehind(sha, step, Delivered(Signed(sha, step).value), step.key, now)
  {
    var signer: seq<byte> -> Signature := _ => step.signature;
    SignWithDecision(sha, step.parts, step.key, step.created, step.expires, step.nonce, signer, signer);
    var request := Delivered(Signed(sha, step).value);
    assert WithBody(request, request.parts.body) == request;
  }

  lemma DeliveryIsRecorded(
    sha: Sha256, steps: seq<Step>, request: IncomingRequest, key: ClientPublicKey, now: I64, verified: VerifiedRequest
  )
    requires VerifyIncoming(sha, Ideal(After(sha, steps).log), request, key, now) == Ok(verified)
    ensures Acceptance(|steps|, request, key, now, verified)
         in After(sha, steps + [Deliver(request, key, now)]).accepted
  {
    var run := steps + [Deliver(request, key, now)];
    assert run[..|steps|] == steps;
    AcceptanceIsRecorded(sha, run, Acceptance(|steps|, request, key, now, verified));
  }

  /** The theorems are not idle: after any run whatever, signing and then delivering in time puts an acceptance on record. */
  lemma HonestDeliveryIsRecorded(sha: Sha256, steps: seq<Step>, sign: Step, now: I64)
    requires sign.SignRequest?
    requires ValidWindow(sign.created, sign.expires) && NonceText(sign.nonce)
    requires InWindow(sign.created, sign.expires, now)
    ensures Signed(sha, sign).Ok?
    ensures var request := Delivered(Signed(sha, sign).value);
            Acceptance(|steps| + 1, request, sign.key, now,
                       VerifiedRequest(sign.key.serviceId, sign.key.instanceId, sign.key.keyId,
                                       sign.parts.requestId, sign.created, sign.expires))
            in After(sha, (steps + [sign]) + [Deliver(request, sign.key, now)]).accepted
  {
    HonestStepIsBehind(sha, sign, now);
    var request := Delivered(Signed(sha, sign).value);
    SignedStepIsAccepted(sha, steps + [sign], |steps|, request, sign.key, now);
    DeliveryIsRecorded(
      sha, steps + [sign], request, sign.key, now,
      VerifiedRequest(sign.key.serviceId, sign.key.instanceId, sign.key.keyId,
                      sign.parts.requestId, sign.created, sign.expires));
  }

  /** Replays die: in any run, two acceptances of one signature input are at most 40 seconds apart. */
  lemma AcceptancesOfOneRequestAreClose(sha: Sha256, steps: seq<Step>, a: Acceptance, b: Acceptance)
    requires a in After(sha, steps).accepted && b in After(sha, steps).accepted
    requires a.request.signatureInput == b.request.signatureInput
    ensures -40 <= a.now - b.now <= 40
    ensures a.verified.created == b.verified.created && a.verified.expires == b.verified.expires
  {
    AcceptanceOrigin(sha, steps, a);
    AcceptanceOrigin(sha, steps, b);
    var checkA, checkB := Ideal(After(sha, steps[..a.at]).log), Ideal(After(sha, steps[..b.at]).log);
    var t, s := AcceptedIsAcceptable(sha, checkA, a.request, a.key, a.now);
    var u, r := AcceptedIsAcceptable(sha, checkB, b.request, b.key, b.now);
    GrammarIsUnambiguous(a.request.signatureInput, t, u);
    AcceptableIsAccepted(sha, checkA, a.request, a.key, a.now, t, s);
    AcceptableIsAccepted(sha, checkB, b.request, b.key, b.now, u, r);
  }

  // ---------------------------------------------------------------- enrollment

  /**
   * An enrollment step stands behind a submission: it succeeded under the same key record on the same challenge, with
   * the submission's signature and its token or one of the same digest, and it signed the same endpoint and pod id,
   * unless the submission's own fields have lengths that the length prefixes cannot separate.
   */
  predicate EnrolledBehind(
    sha: Sha256, step: Step, s: Enrollment.EnrollmentSubmission, recomputed: Enrollment.Recomputed
  ) {
    && step.SignEnrollment?
    && Enrolled(sha, step).Ok?
    && step.key == recomputed.publicKey
    && step.challenge == recomputed.challenge
    && (step.token == s.workloadToken
        || Collision(sha, Utf8.Encode(step.token), Utf8.Encode(s.workloadToken)))
    && step.signature == recomputed.signature
    && Proved(sha, step) == recomputed.message
    && (Decodability.Separable(|Utf8.Encode(Trim(s.endpoint))|, |Utf8.Encode(Trim(s.podUid))|) ==>
          Trim(step.endpoint) == Trim(s.endpoint) && Trim(step.podUid) == Trim(s.podUid))
  }

  /** The message an enrollment step signs. */
  function Proved(sha: Sha256, step: Step): (message: seq<byte>)
    requires step.SignEnrollment?
  {
    Enrollment.ProofBytes(sha, step.challenge, step.key, Trim(step.endpoint), Trim(step.podUid), step.token)
  }

  /** The record that a submission's rebuilt proof needs. */
  function Needed(recomputed: Enrollment.Recomputed): (record: Record) {
    (recomputed.publicKey.publicKey, recomputed.message, recomputed.signature)
  }

  predicate ProofBehind(
    sha: Sha256, step: Step, s: Enrollment.EnrollmentSubmission, recomputed: Enrollment.Recomputed
  ) {
    || EnrolledBehind(sha, step, s, recomputed)
    || step == SignRaw(recomputed.publicKey.publicKey, recomputed.message, recomputed.signature)
  }

  lemma ProofBehindEmits(
    sha: Sha256, step: Step, s: Enrollment.EnrollmentSubmission, recomputed: Enrollment.Recomputed
  )
    requires ProofBehind(sha, step, s, recomputed)
    ensures Emitted(sha, step) == Some(Needed(recomputed))
  {
  }

  lemma RequestEmitsNoProof(
    sha: Sha256, step: Step, s: Enrollment.EnrollmentSubmission, recomputed: Enrollment.Recomputed
  )
    requires recomputed.message
          == Enrollment.ProofBytes(sha, recomputed.challenge, recomputed.publicKey,
                                   Trim(s.endpoint), Trim(s.podUid), s.workloadToken)
    requires step.SignRequest? && Emitted(sha, step).Some?
    ensures Emitted(sha, step).value.1 != recomputed.message
  {
    ProofIsNoBase(sha, recomputed.challenge, recomputed.publicKey, Trim(s.endpoint), Trim(s.podUid), s.workloadToken,
                  SignedLines(sha, step.parts, step.key, step.created, step.expires, step.nonce));
  }

  lemma EnrollmentStepIsBehind(
    sha: Sha256, step: Step, s: Enrollment.EnrollmentSubmission, recomputed: Enrollment.Recomputed
  )
    requires recomputed.message
          == Enrollment.ProofBytes(sha, recomputed.challenge, recomputed.publicKey,
                                   Trim(s.endpoint), Trim(s.podUid), s.workloadToken)
    requires step.SignEnrollment? && Emitted(sha, step) == Some(Needed(recomputed))
    ensures EnrolledBehind(sha, step, s, recomputed)
  {
    var x := Decodability.ProofInput(
      recomputed.challenge, recomputed.publicKey, Trim(s.endpoint), Trim(s.podUid), s.workloadToken);
    var y := Decodability.ProofInput(
      step.challenge, step.key, Trim(step.endpoint), Trim(step.podUid), step.token);
    Decodability.EqualProofs(sha, x, y);
    if Decodability.Separable(|Utf8.Encode(x.endpoint)|, |Utf8.Encode(x.podUid)|) {
      Decodability.ProofDeterminesItsInputs(sha, x, y);
    }
    if Utf8.Encode(step.token) == Utf8.Encode(s.workloadToken) {
      Utf8.EncodeIsInjective(step.token, s.workloadToken);
    }
  }

  lemma EmittingStepIsProofBehind(
    sha: Sha256, step: Step, s: Enrollment.EnrollmentSubmission, recomputed: Enrollment.Recomputed
  )
    requires recomputed.message
          == Enrollment.ProofBytes(sha, recomputed.challenge, recomputed.publicKey,
                                   Trim(s.endpoint), Trim(s.podUid), s.workloadToken)
    requires Emitted(sha, step) == Some(Needed(recomputed))
    ensures ProofBehind(sha, step, s, recomputed)
  {
    if step.SignRequest? {
      RequestEmitsNoProof(sha, step, s, recomputed);
    } else if step.SignEnrollment? {
      EnrollmentStepIsBehind(sha, step, s, recomputed);
    }
  }

  /**
   * Enrollment authenticity over every run: the proof rebuilt from any submission, of any size, carries an ideal
   * signature if and only if an enrollment step stands behind it, or a raw signature over exactly that proof.
   * Requests never count.
   */
  lemma RebuiltProofDecision(
    sha: Sha256, steps: seq<Step>, s: Enrollment.EnrollmentSubmission, recomputed: Enrollment.Recomputed
  )
    requires Enrollment.Recompute(sha, s) == Some(recomputed)
    ensures Needed(recomputed) in After(sha, steps).log <==>
            exists j | 0 <= j < |steps| :: ProofBehind(sha, steps[j], s, recomputed)
  {
    Enrollment.RecomputedMessage(sha, s);
    if Needed(recomputed) in After(sha, steps).log {
      var j := LoggedByAStep(sha, steps, Needed(recomputed));
      EmittingStepIsProofBehind(sha, steps[j], s, recomputed);
    } else if j :| 0 <= j < |steps| && ProofBehind(sha, steps[j], s, recomputed) {
      ProofBehindEmits(sha, steps[j], s, recomputed);
      StepIsLogged(sha, steps, j);
    }
  }

  /** Every submission handed back by an enrollment step rebuilds, after any run, to a proof its key has signed. */
  lemma EnrollmentsAreReproducible(sha: Sha256, steps: seq<Step>, j: nat)
    requires j < |steps| && steps[j].SignEnrollment? && Enrolled(sha, steps[j]).Ok?
    ensures var recomputed := Enrollment.Recompute(sha, Enrolled(sha, steps[j]).value);
            && recomputed.Some?
            && (recomputed.value.publicKey.publicKey, recomputed.value.message, recomputed.value.signature)
               in After(sha, steps).log
  {
    var step := steps[j];
    Enrollment.SubmissionReproducesItsProof(
      sha, ClientCredential(step.key, _ => step.signature), step.challenge, step.endpoint, step.podUid, step.token);
    StepIsLogged(sha, steps, j);
  }
}
