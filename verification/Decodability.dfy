/** What an enrollment proof message determines, and exactly when it determines its two variable fields. */
module Decodability {
  import opened Errors
  import opened Int64
  import opened Text
  import opened Credential
  import opened Enrollment
  import Base64
  import Utf8

  // ---------------------------------------------------------------- cancelling fields of equal length

  lemma FrameCancel(f: seq<byte>, rest: seq<byte>, g: seq<byte>, rest': seq<byte>)
    requires Frame(f) + rest == Frame(g) + rest' && |f| == |g|
    ensures f == g && rest == rest'
  {
    ConcatCancel(Frame(f), rest, Frame(g), rest');
    ConcatCancel(Be32(|f| % TWO_TO_THE_32), f, Be32(|g| % TWO_TO_THE_32), g);
  }

  lemma FramesCancel(fs: seq<seq<byte>>, gs: seq<seq<byte>>)
    requires fs != [] && gs != [] && Frames(fs) == Frames(gs) && |fs[0]| == |gs[0]|
    ensures fs[0] == gs[0] && Frames(fs[1..]) == Frames(gs[1..])
  {
    FrameCancel(fs[0], Frames(fs[1..]), gs[0], Frames(gs[1..]));
  }

  /** Equal framed sequences agree on a common prefix of equal-length fields, and frame equal remainders. */
  lemma {:induction false} FramesCancelMany(fs: seq<seq<byte>>, gs: seq<seq<byte>>, n: nat)
    requires n <= |fs| && n <= |gs| && Frames(fs) == Frames(gs)
    requires forall k | 0 <= k < n :: |fs[k]| == |gs[k]|
    ensures fs[..n] == gs[..n] && Frames(fs[n..]) == Frames(gs[n..])
  {
    if n == 0 {
      assert fs[0..] == fs && gs[0..] == gs;
    } else {
      FramesCancel(fs, gs);
      FramesCancelMany(fs[1..], gs[1..], n - 1);
      assert fs[1..][n - 1..] == fs[n..] && gs[1..][n - 1..] == gs[n..];
      assert fs[..n] == [fs[0]] + fs[1..][..n - 1] && gs[..n] == [gs[0]] + gs[1..][..n - 1];
    }
  }

  lemma FrameTellsLength(f: seq<byte>, rest: seq<byte>, g: seq<byte>, rest': seq<byte>)
    requires Frame(f) + rest == Frame(g) + rest'
    ensures |f| % TWO_TO_THE_32 == |g| % TWO_TO_THE_32
  {
    var m, n := |f| % TWO_TO_THE_32, |g| % TWO_TO_THE_32;
    assert Frame(f) + rest == Be32(m) + (f + rest) && Frame(g) + rest' == Be32(n) + (g + rest');
    ConcatCancel(Be32(m), f + rest, Be32(n), g + rest');
    FromBe32OfBe32(m);
    FromBe32OfBe32(n);
  }

  /** Proof-shaped messages agree on their fixed fields, and the frames of the two variable fields agree as a pair. */
  lemma ShapedFramesCancel(fs: seq<seq<byte>>, gs: seq<seq<byte>>)
    requires ProofShaped(fs) && ProofShaped(gs) && Frames(fs) == Frames(gs)
    ensures fs[..6] == gs[..6] && fs[8] == gs[8]
    ensures Frame(fs[6]) + Frame(fs[7]) == Frame(gs[6]) + Frame(gs[7])
  {
    FramesCancelMany(fs, gs, 6);
    ThreeFramesCancel(fs[6..], gs[6..]);
  }

  lemma ThreeFramesCancel(f: seq<seq<byte>>, g: seq<seq<byte>>)
    requires |f| == |g| == 3 && |f[2]| == |g[2]| && Frames(f) == Frames(g)
    ensures f[2] == g[2] && Frame(f[0]) + Frame(f[1]) == Frame(g[0]) + Frame(g[1])
  {
    FramesOfThree(f);
    FramesOfThree(g);
    ConcatCancel(Frame(f[0]) + Frame(f[1]), Frame(f[2]), Frame(g[0]) + Frame(g[1]), Frame(g[2]));
    FrameCancel(f[2], [], g[2], []);
  }

  lemma {:induction false} FramesShare(fs: seq<seq<byte>>, gs: seq<seq<byte>>, n: nat)
    requires |fs| == |gs| == n + 3 && fs[..n] == gs[..n] && fs[n + 2] == gs[n + 2]
    requires Frame(fs[n]) + Frame(fs[n + 1]) == Frame(gs[n]) + Frame(gs[n + 1])
    ensures Frames(fs) == Frames(gs)
  {
    if n == 0 {
      FramesOfThree(fs);
      FramesOfThree(gs);
    } else {
      assert fs[0] == fs[..n][0] && gs[0] == gs[..n][0];
      assert fs[1..][..n - 1] == fs[..n][1..] && gs[1..][..n - 1] == gs[..n][1..];
      FramesShare(fs[1..], gs[1..], n - 1);
    }
  }

  lemma FramesOfThree(f: seq<seq<byte>>)
    requires |f| == 3
    ensures Frames(f) == (Frame(f[0]) + Frame(f[1])) + Frame(f[2])
  {
    assert f[1..][1..] == f[2..] && f[2..][1..] == [];
    assert Frames(f[2..]) == Frame(f[2]) + Frames([]);
    assert Frames(f[1..]) == Frame(f[1]) + Frames(f[2..]);
  }

  // ---------------------------------------------------------------- two variable fields with truncated lengths

  /** Two frame pairs with equal bytes have equal total length, and lengths that agree in their low 32 bits. */
  lemma PairLengths(e: seq<byte>, p: seq<byte>, f: seq<byte>, q: seq<byte>)
    requires Frame(e) + Frame(p) == Frame(f) + Frame(q)
    ensures |e| + |p| == |f| + |q|
    ensures |e| % TWO_TO_THE_32 == |f| % TWO_TO_THE_32 && |p| % TWO_TO_THE_32 == |q| % TWO_TO_THE_32
  {
    FrameTellsLength(e, Frame(p), f, Frame(q));
    assert |Frame(e) + Frame(p)| == |e| + |p| + 8 && |Frame(f) + Frame(q)| == |f| + |q| + 8;
    RemaindersAgree(|e|, |p|, |f|, |q|);
  }

  lemma RemaindersAgree(a: nat, b: nat, c: nat, d: nat)
    requires a + b == c + d && a % TWO_TO_THE_32 == c % TWO_TO_THE_32
    ensures b % TWO_TO_THE_32 == d % TWO_TO_THE_32
    ensures a > c ==> a - c >= TWO_TO_THE_32
  {
  }

  /** When the first fields differ in length, the longer one holds the frame length of the second field and a filler. */
  lemma LongerFieldHoldsTheMark(e: seq<byte>, p: seq<byte>, f: seq<byte>, q: seq<byte>) returns (filler: seq<byte>)
    requires Frame(e) + Frame(p) == Frame(f) + Frame(q) && |f| < |e|
    ensures |e| >= |f| + TWO_TO_THE_32 && filler != []
    ensures e == f + (Be32(|p| % TWO_TO_THE_32) + filler)
    ensures q == filler + (Be32(|p| % TWO_TO_THE_32) + p)
  {
    PairLengths(e, p, f, q);
    RemaindersAgree(|e|, |p|, |f|, |q|);
    var mark, n := Be32(|p| % TWO_TO_THE_32), Be32(|e| % TWO_TO_THE_32);
    var excess := e[|f|..];
    filler := excess[4..];
    assert Frame(e) + Frame(p) == n + (e + (mark + p)) && Frame(f) + Frame(q) == n + (f + (mark + q));
    ConcatCancel(n, e + (mark + p), n, f + (mark + q));
    assert e + (mark + p) == e[..|f|] + (excess + (mark + p));
    ConcatCancel(e[..|f|], excess + (mark + p), f, mark + q);
    assert excess + (mark + p) == excess[..4] + (filler + (mark + p));
    ConcatCancel(excess[..4], filler + (mark + p), mark, q);
    assert e == e[..|f|] + excess && excess == excess[..4] + filler;
  }

  /** Conversely, any filler that makes up whole multiples of 2^32 with the mark moves between the two fields unseen. */
  lemma MarkAndFillerMove(f: seq<byte>, mark: seq<byte>, filler: seq<byte>, p: seq<byte>)
    requires mark == Be32(|p| % TWO_TO_THE_32) && |filler| == TWO_TO_THE_32 - 4
    ensures Frame(f + (mark + filler)) + Frame(p) == Frame(f) + Frame(filler + (mark + p))
  {
    LengthWraps(|f|);
    LengthWraps(|p|);
    var n := Be32(|f| % TWO_TO_THE_32);
    assert Frame(f + (mark + filler)) == n + (f + (mark + filler));
    assert Frame(filler + (mark + p)) == mark + (filler + (mark + p));
    assert (n + (f + (mark + filler))) + (mark + p) == (n + f) + (mark + (filler + (mark + p)));
  }

  lemma LengthWraps(n: nat)
    ensures (n + TWO_TO_THE_32) % TWO_TO_THE_32 == n % TWO_TO_THE_32
  {
  }

  /** For texts, a difference in length forces the four bytes of the mark to be a text themselves. */
  lemma LongerTextNeedsATextMark(e: string, p: string, f: string, q: string)
    requires Frame(Utf8.Encode(e)) + Frame(Utf8.Encode(p)) == Frame(Utf8.Encode(f)) + Frame(Utf8.Encode(q))
    requires |Utf8.Encode(f)| < |Utf8.Encode(e)|
    ensures |Utf8.Encode(e)| >= |Utf8.Encode(f)| + TWO_TO_THE_32
    ensures Utf8.Decode(Be32(|Utf8.Encode(p)| % TWO_TO_THE_32)).Some?
  {
    var filler := LongerFieldHoldsTheMark(Utf8.Encode(e), Utf8.Encode(p), Utf8.Encode(f), Utf8.Encode(q));
    var mark := Be32(|Utf8.Encode(p)| % TWO_TO_THE_32);
    Utf8.DecodeOfEncode(e);
    Utf8.DecodeAfterText(f, mark + filler);
    assert Utf8.Encode(q)[0] == filler[0];
    Utf8.TextStartsACharacter(q);
    Utf8.DecodeBeforeBoundary(mark, filler);
  }

  /** The lengths for which the truncated prefixes still separate the two fields. */
  predicate Separable(a: nat, b: nat) {
    (a < TWO_TO_THE_32 && b < TWO_TO_THE_32) || Utf8.Decode(Be32(b % TWO_TO_THE_32)).None?
  }

  lemma EqualLengthsCancel(e: string, p: string, f: string, q: string)
    requires Frame(Utf8.Encode(e)) + Frame(Utf8.Encode(p)) == Frame(Utf8.Encode(f)) + Frame(Utf8.Encode(q))
    requires |Utf8.Encode(e)| == |Utf8.Encode(f)|
    ensures e == f && p == q
  {
    PairLengths(Utf8.Encode(e), Utf8.Encode(p), Utf8.Encode(f), Utf8.Encode(q));
    FrameCancel(Utf8.Encode(e), Frame(Utf8.Encode(p)), Utf8.Encode(f), Frame(Utf8.Encode(q)));
    FrameCancel(Utf8.Encode(p), [], Utf8.Encode(q), []);
    Utf8.EncodeIsInjective(e, f);
    Utf8.EncodeIsInjective(p, q);
  }

  lemma SeparableFieldsCancel(e: string, p: string, f: string, q: string)
    requires Frame(Utf8.Encode(e)) + Frame(Utf8.Encode(p)) == Frame(Utf8.Encode(f)) + Frame(Utf8.Encode(q))
    requires Separable(|Utf8.Encode(e)|, |Utf8.Encode(p)|)
    ensures e == f && p == q
  {
    PairLengths(Utf8.Encode(e), Utf8.Encode(p), Utf8.Encode(f), Utf8.Encode(q));
    if |Utf8.Encode(f)| < |Utf8.Encode(e)| {
      LongerTextNeedsATextMark(e, p, f, q);
    } else if |Utf8.Encode(e)| < |Utf8.Encode(f)| {
      LongerTextNeedsATextMark(f, q, e, p);
    } else {
      EqualLengthsCancel(e, p, f, q);
    }
  }

  // ---------------------------------------------------------------- proof messages

  /** What a proof message is built from. */
  datatype ProofInput = ProofInput(
    challenge: Challenge,
    publicKey: ClientPublicKey,
    endpoint: string,
    podUid: string,
    token: string
  )

  function Fields(sha: Sha256, x: ProofInput): (fields: seq<seq<byte>>) {
    ProofFields(sha, x.challenge, x.publicKey, x.endpoint, x.podUid, x.token)
  }

  function Proof(sha: Sha256, x: ProofInput): (message: seq<byte>) {
    ProofBytes(sha, x.challenge, x.publicKey, x.endpoint, x.podUid, x.token)
  }

  /** Everything but the two variable fields is the same, the tokens up to their digests. */
  predicate SameFixedFields(sha: Sha256, x: ProofInput, y: ProofInput) {
    x.challenge == y.challenge && x.publicKey == y.publicKey && sha(Utf8.Encode(x.token)) == sha(Utf8.Encode(y.token))
  }

  predicate SameVariableFields(x: ProofInput, y: ProofInput) {
    x.endpoint == y.endpoint && x.podUid == y.podUid
  }

  predicate HasLengths(x: ProofInput, a: nat, b: nat) {
    |Utf8.Encode(x.endpoint)| == a && |Utf8.Encode(x.podUid)| == b
  }

  /** Equal messages: equal fixed fields, and the variable fields frame to equal pairs. Sizes do not matter. */
  lemma EqualProofs(sha: Sha256, x: ProofInput, y: ProofInput)
    requires Proof(sha, x) == Proof(sha, y)
    ensures SameFixedFields(sha, x, y)
    ensures Frame(Utf8.Encode(x.endpoint)) + Frame(Utf8.Encode(x.podUid))
         == Frame(Utf8.Encode(y.endpoint)) + Frame(Utf8.Encode(y.podUid))
  {
    ProofFieldsAreShaped(sha, x.challenge, x.publicKey, x.endpoint, x.podUid, x.token);
    ProofFieldsAreShaped(sha, y.challenge, y.publicKey, y.endpoint, y.podUid, y.token);
    ShapedFramesCancel(Fields(sha, x), Fields(sha, y));
    EqualIdentities(sha, x, y);
    EqualDigests(sha, x, y);
  }

  lemma EqualIdentities(sha: Sha256, x: ProofInput, y: ProofInput)
    requires Fields(sha, x)[..6] == Fields(sha, y)[..6]
    ensures x.challenge == y.challenge && x.publicKey == y.publicKey
  {
    var fs, gs := Fields(sha, x)[..6], Fields(sha, y)[..6];
    assert fs[1] == gs[1] && fs[2] == gs[2] && fs[3] == gs[3] && fs[4] == gs[4] && fs[5] == gs[5];
  }

  lemma EqualDigests(sha: Sha256, x: ProofInput, y: ProofInput)
    requires Fields(sha, x)[8] == Fields(sha, y)[8]
    ensures sha(Utf8.Encode(x.token)) == sha(Utf8.Encode(y.token))
  {
  }

  /**
   * A proof message of separable lengths determines everything it was built from, among all other inputs of any
   * size: the only freedom left is a SHA-256 collision between tokens.
   */
  lemma ProofDeterminesItsInputs(sha: Sha256, x: ProofInput, y: ProofInput)
    requires Separable(|Utf8.Encode(x.endpoint)|, |Utf8.Encode(x.podUid)|)
    requires Proof(sha, x) == Proof(sha, y)
    ensures SameFixedFields(sha, x, y) && SameVariableFields(x, y)
  {
    EqualProofs(sha, x, y);
    SeparableFieldsCancel(x.endpoint, x.podUid, y.endpoint, y.podUid);
  }

  lemma EqualFramePairs(sha: Sha256, x: ProofInput, y: ProofInput)
    requires x.challenge == y.challenge && x.publicKey == y.publicKey && x.token == y.token
    requires Frame(Utf8.Encode(x.endpoint)) + Frame(Utf8.Encode(x.podUid))
          == Frame(Utf8.Encode(y.endpoint)) + Frame(Utf8.Encode(y.podUid))
    ensures Proof(sha, x) == Proof(sha, y)
  {
    var fs, gs := Fields(sha, x), Fields(sha, y);
    assert forall k | 0 <= k < 6 :: fs[k] == gs[k];
    assert fs[..6] == gs[..6];
    FramesShare(fs, gs, 6);
  }

  /** Mark and filler behind the endpoint. */
  function Behind(x: ProofInput, mark: string, filler: string): (y: ProofInput) {
    x.(endpoint := x.endpoint + (mark + filler))
  }

  /** The same characters, with the filler first, before the pod id. */
  function Before(x: ProofInput, mark: string, filler: string): (y: ProofInput) {
    x.(podUid := filler + (mark + x.podUid))
  }

  /**
   * The families of inputs with one message: for every endpoint, every pod id whose length bytes are a text, and
   * every filler of 2^32 - 4 bytes, mark and filler may stand behind the endpoint or before the pod id.
   */
  lemma OversizedFieldsShareAProof(sha: Sha256, x: ProofInput, mark: string, filler: string)
    requires Utf8.Encode(mark) == Be32(|Utf8.Encode(x.podUid)| % TWO_TO_THE_32)
    requires |Utf8.Encode(filler)| == TWO_TO_THE_32 - 4
    ensures Proof(sha, Behind(x, mark, filler)) == Proof(sha, Before(x, mark, filler))
    ensures Behind(x, mark, filler).endpoint != Before(x, mark, filler).endpoint
    ensures HasLengths(Behind(x, mark, filler), |Utf8.Encode(x.endpoint)| + TWO_TO_THE_32, |Utf8.Encode(x.podUid)|)
    ensures HasLengths(Before(x, mark, filler), |Utf8.Encode(x.endpoint)|, |Utf8.Encode(x.podUid)| + TWO_TO_THE_32)
  {
    Utf8.EncodeOfConcat(mark, filler);
    Utf8.EncodeOfConcat(x.endpoint, mark + filler);
    Utf8.EncodeOfConcat(mark, x.podUid);
    Utf8.EncodeOfConcat(filler, mark + x.podUid);
    MarkAndFillerMove(Utf8.Encode(x.endpoint), Utf8.Encode(mark), Utf8.Encode(filler), Utf8.Encode(x.podUid));
    EqualFramePairs(sha, Behind(x, mark, filler), Before(x, mark, filler));
    assert |Utf8.Encode(x.endpoint + (mark + filler))| != |Utf8.Encode(x.endpoint)|;
  }

  // ---------------------------------------------------------------- exactly which lengths are unambiguous

  function Letters(n: nat): (s: string)
    ensures |s| == n && forall k | 0 <= k < n :: s[k] == 'a'
  {
    seq(n, _ => 'a')
  }

  lemma LettersLength(n: nat)
    ensures |Utf8.Encode(Letters(n))| == n
  {
    Utf8.EncodeOfAscii(Letters(n));
  }

  /** Every proof of these lengths determines its inputs. */
  ghost predicate AlwaysDecodable(sha: Sha256, a: nat, b: nat) {
    forall x: ProofInput, y: ProofInput | HasLengths(x, a, b) && Proof(sha, x) == Proof(sha, y) ::
      SameFixedFields(sha, x, y) && SameVariableFields(x, y)
  }

  /** The mark of a pod id of `b` bytes, when it is a text. */
  function Mark(b: nat): (mark: string)
    requires Utf8.Decode(Be32(b % TWO_TO_THE_32)).Some?
  {
    Utf8.Decode(Be32(b % TWO_TO_THE_32)).value
  }

  function Filler(): (filler: string)
    ensures filler != "" && filler[0] == 'a' && filler[|filler| - 1] == 'a'
  {
    Letters(TWO_TO_THE_32 - 4)
  }

  /** The pair of inputs that differ in where mark and filler stand. */
  lemma Twins(sha: Sha256, x: ProofInput, b: nat)
    requires Utf8.Decode(Be32(b % TWO_TO_THE_32)).Some?
    requires |Utf8.Encode(x.podUid)| % TWO_TO_THE_32 == b % TWO_TO_THE_32
    ensures Proof(sha, Behind(x, Mark(b), Filler())) == Proof(sha, Before(x, Mark(b), Filler()))
    ensures !SameVariableFields(Behind(x, Mark(b), Filler()), Before(x, Mark(b), Filler()))
    ensures HasLengths(Behind(x, Mark(b), Filler()),
                       |Utf8.Encode(x.endpoint)| + TWO_TO_THE_32, |Utf8.Encode(x.podUid)|)
    ensures HasLengths(Before(x, Mark(b), Filler()),
                       |Utf8.Encode(x.endpoint)|, |Utf8.Encode(x.podUid)| + TWO_TO_THE_32)
  {
    Utf8.EncodeOfDecode(Be32(b % TWO_TO_THE_32));
    LettersLength(TWO_TO_THE_32 - 4);
    OversizedFieldsShareAProof(sha, x, Mark(b), Filler());
  }

  /**
   * The exact condition on byte lengths: every proof with an endpoint of `a` bytes and a pod id of `b` bytes
   * determines its inputs if and only if both lengths are below 2^32 or the four length bytes of the pod id are
   * not UTF-8.
   */
  lemma ProofDecision(sha: Sha256, a: nat, b: nat)
    ensures AlwaysDecodable(sha, a, b) <==> Separable(a, b)
  {
    if Separable(a, b) {
      forall x: ProofInput, y: ProofInput | HasLengths(x, a, b) && Proof(sha, x) == Proof(sha, y)
        ensures SameFixedFields(sha, x, y) && SameVariableFields(x, y)
      {
        ProofDeterminesItsInputs(sha, x, y);
      }
    } else if a >= TWO_TO_THE_32 {
      LettersLength(a - TWO_TO_THE_32);
      LettersLength(b);
      Twins(sha, AnyInput(Letters(a - TWO_TO_THE_32), Letters(b)), b);
    } else {
      LettersLength(a);
      LettersLength(b - TWO_TO_THE_32);
      LengthWraps(b - TWO_TO_THE_32);
      Twins(sha, AnyInput(Letters(a), Letters(b - TWO_TO_THE_32)), b);
    }
  }

  function Zeros(n: nat): (b: seq<byte>)
    ensures |b| == n
  {
    seq(n, _ => 0)
  }

  function AnyInput(endpoint: string, podUid: string): (x: ProofInput) {
    ProofInput(Zeros(32), ClientPublicKey(Zeros(16), Zeros(16), Zeros(16), Zeros(32)), endpoint, podUid, "t")
  }

  // ---------------------------------------------------------------- the same for what signing accepts

  /** Inputs that signing hands to the signer: trimmed, an https endpoint, a pod id and a token. */
  ghost predicate Signable(x: ProofInput) {
    && HttpsUrl(x.endpoint) && Trimmed(x.endpoint)
    && x.podUid != "" && Trimmed(x.podUid)
    && x.token != ""
  }

  lemma TrimOfTrimmed(s: string)
    requires Trimmed(s)
    ensures Trim(s) == s
  {
    assert "" + s + "" == s;
    TrimIsTheTrimmedCore("", s, "");
  }

  /** Signable inputs are what signing accepts unchanged, and what it makes of anything it accepts. */
  lemma SignableDecision(
    sha: Sha256, credential: ClientCredential, challenge: Challenge,
    endpoint: string, podUid: string, workloadToken: string
  )
    ensures Sign(sha, credential, challenge, endpoint, podUid, workloadToken).Ok? <==>
            Signable(ProofInput(challenge, credential.publicKey, Trim(endpoint), Trim(podUid), workloadToken))
  {
    SubmissionDecision(sha, credential, challenge, endpoint, podUid, workloadToken);
    BlankDecision(podUid);
    var _, _ := TrimSplits(endpoint);
    var _, _ := TrimSplits(podUid);
  }

  lemma SignableLengths(x: ProofInput)
    requires Signable(x)
    ensures |Utf8.Encode(x.endpoint)| >= 9 && |Utf8.Encode(x.podUid)| >= 1
  {
    var rest :| rest != "" && x.endpoint == "https://" + rest;
    Utf8.EncodeOfConcat("https://", rest);
    Utf8.EncodeOfAscii("https://");
    Utf8.TextStartsACharacter(rest);
    Utf8.TextStartsACharacter(x.podUid);
  }

  /** Every signed proof of these lengths determines its inputs among all inputs that can be signed. */
  ghost predicate AlwaysDecodableWhenSigned(sha: Sha256, a: nat, b: nat) {
    forall x: ProofInput, y: ProofInput |
      Signable(x) && Signable(y) && HasLengths(x, a, b) && Proof(sha, x) == Proof(sha, y) ::
      SameFixedFields(sha, x, y) && SameVariableFields(x, y)
  }

  /** No signable input has such lengths, or none of them leaves room for a twin that can be signed too. */
  predicate SeparableWhenSigned(a: nat, b: nat) {
    || a < 9 || b < 1
    || (a < TWO_TO_THE_32 + 9 && b < TWO_TO_THE_32 + 1)
    || Utf8.Decode(Be32(b % TWO_TO_THE_32)).None?
  }

  lemma SignedProofDeterminesItsInputs(sha: Sha256, x: ProofInput, y: ProofInput)
    requires Signable(x) && Signable(y) && Proof(sha, x) == Proof(sha, y)
    requires SeparableWhenSigned(|Utf8.Encode(x.endpoint)|, |Utf8.Encode(x.podUid)|)
    ensures SameFixedFields(sha, x, y) && SameVariableFields(x, y)
  {
    SignableLengths(x);
    SignableLengths(y);
    EqualProofs(sha, x, y);
    var e, p, f, q := Utf8.Encode(x.endpoint), Utf8.Encode(x.podUid), Utf8.Encode(y.endpoint), Utf8.Encode(y.podUid);
    PairLengths(e, p, f, q);
    if |f| < |e| {
      LongerTextNeedsATextMark(x.endpoint, x.podUid, y.endpoint, y.podUid);
    } else if |e| < |f| {
      LongerTextNeedsATextMark(y.endpoint, y.podUid, x.endpoint, x.podUid);
    } else {
      EqualLengthsCancel(x.endpoint, x.podUid, y.endpoint, y.podUid);
    }
  }

  /** Twins of a signable input are signable: the ends of both fields keep, and the filler is letters. */
  lemma TwinsAreSignable(x: ProofInput, mark: string, filler: string)
    requires Signable(x) && filler != "" && filler[0] == 'a' && filler[|filler| - 1] == 'a'
    ensures Signable(Behind(x, mark, filler)) && Signable(Before(x, mark, filler))
  {
    var rest :| rest != "" && x.endpoint == "https://" + rest;
    assert x.endpoint + (mark + filler) == "https://" + (rest + (mark + filler));
    assert !IsWhitespace('a');
  }

  function HttpsEndpoint(length: nat): (s: string)
    requires 9 <= length
    ensures |s| == length
  {
    "https://" + Letters(length - 8)
  }

  lemma HttpsEndpointLength(length: nat)
    requires 9 <= length
    ensures |Utf8.Encode(HttpsEndpoint(length))| == length
  {
    Utf8.EncodeOfAscii("https://");
    LettersLength(length - 8);
    Utf8.EncodeOfConcat("https://", Letters(length - 8));
  }

  lemma HttpsEndpointIsSignable(length: nat, podLength: nat)
    requires 9 <= length && 1 <= podLength
    ensures Signable(AnyInput(HttpsEndpoint(length), Letters(podLength)))
    ensures HasLengths(AnyInput(HttpsEndpoint(length), Letters(podLength)), length, podLength)
  {
    var s := HttpsEndpoint(length);
    assert s[0] == 'h' && s[length - 1] == Letters(length - 8)[length - 9];
    HttpsEndpointLength(length);
    LettersLength(podLength);
  }

  lemma SignedTwins(sha: Sha256, length: nat, podLength: nat, b: nat) returns (x: ProofInput, y: ProofInput)
    requires 9 <= length && 1 <= podLength && podLength % TWO_TO_THE_32 == b % TWO_TO_THE_32
    requires Utf8.Decode(Be32(b % TWO_TO_THE_32)).Some?
    ensures Signable(x) && Signable(y) && Proof(sha, x) == Proof(sha, y) && !SameVariableFields(x, y)
    ensures HasLengths(x, length + TWO_TO_THE_32, podLength) && HasLengths(y, length, podLength + TWO_TO_THE_32)
  {
    var base := AnyInput(HttpsEndpoint(length), Letters(podLength));
    x, y := Behind(base, Mark(b), Filler()), Before(base, Mark(b), Filler());
    HttpsEndpointIsSignable(length, podLength);
    TwinsAreSignable(base, Mark(b), Filler());
    Twins(sha, base, b);
  }

  /** The exact condition for signed proofs: it moves by the nine bytes of the shortest endpoint and the one of a pod id. */
  lemma SignedProofDecision(sha: Sha256, a: nat, b: nat)
    ensures AlwaysDecodableWhenSigned(sha, a, b) <==> SeparableWhenSigned(a, b)
  {
    if SeparableWhenSigned(a, b) {
      forall x: ProofInput, y: ProofInput |
        Signable(x) && Signable(y) && HasLengths(x, a, b) && Proof(sha, x) == Proof(sha, y)
        ensures SameFixedFields(sha, x, y) && SameVariableFields(x, y)
      {
        SignedProofDeterminesItsInputs(sha, x, y);
      }
    } else if a >= TWO_TO_THE_32 + 9 {
      var x, y := SignedTwins(sha, a - TWO_TO_THE_32, b, b);
    } else {
      LengthWraps(b - TWO_TO_THE_32);
      var x, y := SignedTwins(sha, a, b - TWO_TO_THE_32, b);
    }
  }

  /** The code can receive such inputs: two enrollments with different endpoints succeed with one signature. */
  lemma TwoEnrollmentsShareASignature(sha: Sha256, credential: ClientCredential, challenge: Challenge, token: string)
    returns (e: string, p: string, e': string, p': string)
    requires token != ""
    ensures Sign(sha, credential, challenge, e, p, token).Ok?
    ensures Sign(sha, credential, challenge, e', p', token).Ok?
    ensures var one, two := Sign(sha, credential, challenge, e, p, token).value,
                            Sign(sha, credential, challenge, e', p', token).value;
            one.endpoint != two.endpoint && one.podUid != two.podUid && one.signature == two.signature
  {
    var x := ProofInput(challenge, credential.publicKey, HttpsEndpoint(9), Letters(1), token);
    HttpsEndpointIsSignable(9, 1);
    Utf8Mark();
    var moved, kept := Behind(x, Mark(1), Filler()), Before(x, Mark(1), Filler());
    TwinsAreSignable(x, Mark(1), Filler());
    Twins(sha, x, 1);
    e, p, e', p' := moved.endpoint, moved.podUid, kept.endpoint, kept.podUid;
    SignatureOfSignable(sha, credential, moved);
    SignatureOfSignable(sha, credential, kept);
    assert |p'| > |p|;
  }

  lemma Utf8Mark()
    ensures Utf8.Decode(Be32(1 % TWO_TO_THE_32)).Some?
  {
    var mark: string := ['\0', '\0', '\0', '\U{0001}'];
    Utf8.EncodeOfAscii(mark);
    assert Be32(1) == Utf8.Encode(mark);
    Utf8.DecodeOfEncode(mark);
  }

  lemma SignatureOfSignable(sha: Sha256, credential: ClientCredential, x: ProofInput)
    requires Signable(x) && x.publicKey == credential.publicKey
    ensures var r := Sign(sha, credential, x.challenge, x.endpoint, x.podUid, x.token);
            && r.Ok? && r.value.endpoint == x.endpoint && r.value.podUid == x.podUid
            && r.value.signature == Base64.Encode(Base64.URL_SAFE_NO_PAD, credential.sign(Proof(sha, x)))
  {
    TrimOfTrimmed(x.endpoint);
    TrimOfTrimmed(x.podUid);
    SignableDecision(sha, credential, x.challenge, x.endpoint, x.podUid, x.token);
  }
}
