# A model of the signed-request and enrollment protocols

This project models `infernal-client-rs`: the signed-request wire protocol (construction, printing and signing against
parsing and checking), the enrollment proof signed by the same keys, and the PEM gate in front of extra trust anchors.
It proves what the two directions owe each other: that the bytes identify the request, that what a signer emits is
accepted for exactly its window, and that in every run whatever is accepted was signed.

`dafny verify dfyconfig.toml` checks everything.

## Layout

| file | content |
|---|---|
| `Protocol.dfy`, `Runs.dfy` | both protocols under shared keys, over all interleavings: authenticity, replay lifetime |
| `RoundTrip.dfy` | signing against verifying, through the header set |
| `Verify.dfy` | `src/verify.rs`: parsers, freshness, the acceptance decision |
| `WireFormat.dfy` | the lines, parameters and headers spelled out in literals, and printers, parsers and checks proved to follow them |
| `Request.dfy` | `src/request.rs`: request parts, signing, headers, nonces |
| `Wire.dfy` | `src/wire.rs`: printers, validators, the signature base and its decoder |
| `Enrollment.dfy` | `src/enrollment.rs`: proof messages, submissions, challenges |
| `Decodability.dfy` | exactly when a proof message determines its fields, in general and among signed ones |
| `Transport.dfy` | `src/transport.rs`: the PEM gate |
| `Credential.dfy`, `Errors.dfy` | identities and error values |
| `Base64.dfy`, `Decimal.dfy`, `Uuids.dfy`, `Utf8.dfy`, `Text.dfy`, `Int64.dfy` | the codecs, string operations and machine integers the crate takes from its libraries |

## How the source is read

- Text is a sequence of Unicode scalar values. Its bytes are its UTF-8 encoding, defined and proved bijective in
  `Utf8.dfy`; the byte-wise validators and lengths of the source are stated on those bytes and proved equal to conditions on
  characters.
- Every format is stated apart from the functions that print and parse it: lines, parameters and headers as literals, the
  enrollment message by byte offsets, base64 and UTF-8 by the alphabet and table of their RFCs, UUIDs by their spellings.
- 64-bit integers keep their range; saturating addition and wrapping subtraction are written out.
- SHA-256 is an arbitrary function to 32 bytes, passed as an argument. No result assumes it is injective: the conclusions
  are "equal, or this explicit collision".
- Ed25519 checking is an argument too. Results about one call hold for every checker; results about runs use the ideal one,
  which accepts a signature exactly when that key produced it over that message before. A signer is any function from
  messages to 64 bytes.
- A step `SignRaw` stands for the public `ClientCredential::sign`, which signs any bytes a host hands it. Authenticity of
  requests is stated with it (as one of the two things that can stand behind an acceptance) and, for runs that never use a
  key on raw bytes opening with a double quote, without it.
- `method`, a reserved word here, is called `verb` in the records; error names keep the source's text.
- Clocks and randomness are arguments.

Assumptions about libraries whose code is not part of this model: the two base64 engines are strict (canonical padding
for the one, no padding for the other, unused bits zero), as sections 3.5, 4 and 5 of RFC 4648 allow; UUID parsing accepts
the hyphenated, plain, braced and URN spellings in either case; integer parsing multiplies and adds digit by digit and
fails at the first overflow.

Three places where the obvious statement is false of the code, each with its witnesses and its exact condition:

- The enrollment length prefix is a cast to 32 bits, so a proof message of `a` endpoint bytes and `b` pod id bytes does not
  always determine its fields. It does if and only if `a < 2^32 && b < 2^32`, or the four length bytes of the pod id (`b` cut
  to 32 bits) are not UTF-8: `ProofDecision`, for all `a` and `b`. Among fields that signing accepts, the bounds move by the
  shortest endpoint (9 bytes) and the shortest pod id (1 byte): `SignedProofDecision`. `TwoEnrollmentsShareASignature` gives
  the input: two successful enrollments with different endpoints and one signature. The source neither checks nor mentions
  a bound.
- The parsers are not exact inverses of the printers on all accepted text. Every accepted signature input has accepted
  twins with leading zeros (`LeadingZerosAreAccepted`) and with another spelling of the key id
  (`EveryInputHasAnotherSpelling`). Printing gives the text back if and only if neither time has a superfluous leading zero
  and the key id is 36 characters without capital digits (`PrintedInputDecision`). The verbatim parameters text in the
  signature base is what carries the guarantee, and the authenticity proofs go through it.
- The PEM gate drops whitespace in the block, but only after it has looked for the end marker, which contains a space.
  Inserted whitespace leaves the verdict unchanged if and only if it does not complete an end marker behind a certificate
  body (`BlankRunDecision`); `InsertedSpaceCompletesAMarker` gives refused texts that one space makes accepted. No accepted
  text becomes refused.

## Model

| member | source | states |
|---|---|---|
| Protocol.AcceptancesAreAuthentic | src/verify.rs:121-163 | in every run of signings, enrollments and arbitrary deliveries (the accepted key never signing raw text that opens with a quote; other keys may sign anything), each accepted delivery has an earlier successful signing call under the same service, instance, key id and key bytes that handed back exactly the delivered digest, signature input and signature for the same method, authority, path, content type and request id; the body is the signed one or collides with it under SHA-256; the verified values are the signer's |
| Protocol.DeliveryDecision | src/verify.rs:121-163 | after any run a delivery is accepted if and only if an earlier step stands behind it: a signing call for that very request whose window is open, or a raw signature over exactly its base; an enrollment never does |
| Protocol.AcceptanceOrigin | src/verify.rs:121-163 | an acceptance on record in a run was a delivery that verified against the signatures made before it |
| Protocol.AcceptanceIsRecorded | src/verify.rs:121-163 | every delivery that verifies is on record, so the run-level results miss none |
| Protocol.HonestDeliveryIsRecorded | src/verify.rs:121-163 | after any run whatever, signing with valid metadata and delivering within the widened window puts an acceptance with the signer's values on record |
| Protocol.EqualMessages | src/request.rs:131-162 | the bytes a verifier rebuilds equal the bytes a signer signed only if method, authority, path, content type, request id, service, instance and parameters are equal and the bodies have one digest |
| Protocol.SigningStepIsBehind | src/request.rs:131-162 | the signing call whose bytes an acceptable delivery relies on used the same public key record, handed back the delivered texts, and its window is open |
| Protocol.BehindIsAccepted | src/verify.rs:121-163 | conversely, such a signing call makes the delivery verify, to the signer's own values, even with a colliding body |
| Protocol.ProofIsNoBase | src/enrollment.rs:167-194 | an enrollment proof and a request's signature base are never the same bytes, so neither signature can stand in for the other |
| Protocol.AcceptancesOfOneRequestAreClose | src/verify.rs:225-234 | in any run, two acceptances with equal signature inputs, under whatever keys, are at most 40 seconds apart and attest the same window |
| Protocol.RebuiltProofDecision | src/enrollment.rs:55-94 | after any run, the proof rebuilt from a submission of any size carries a genuine signature if and only if an enrollment step stands behind it, with the same key record, challenge, signed bytes and signature, the same token up to a SHA-256 collision, and the same trimmed endpoint and pod id whenever their lengths are separable, or a raw signature over that very proof; request signatures never qualify |
| Protocol.EnrollmentsAreReproducible | src/enrollment.rs:61-94 | every submission an enrollment hands back rebuilds to a proof its key has signed |
| Runs.LogOrigin | src/request.rs:131-162 | the signatures known after a run are exactly those its steps produced |
| WireFormat.SignatureBaseLines | src/wire.rs:31-44 | for all values a signature base is eight lines, each a quoted name, colon, space and value, in the order method, target URI, digest, content type, service, instance, request id, parameters; splitting at line feeds gives exactly these lines when no value has one |
| WireFormat.MessageLines | src/request.rs:131-162 | the bytes handed to the signer are the UTF-8 of those lines with every value written out: https URI, digest text, lower-case ids, parameters |
| WireFormat.CheckedLines | src/verify.rs:121-163 | an accepted request was checked over the same eight lines of its own values, with its signature input behind the label verbatim as parameters |
| WireFormat.SpelledInputIsAccepted | src/verify.rs:165-200 | the signature input spelled out in literals, with digit strings of a valid window, a nonce and a UUID text, parses to what they denote and to itself minus the label |
| WireFormat.AcceptedInputIsSpelled | src/verify.rs:165-200 | every accepted signature input has that spelling |
| WireFormat.CoveredComponents | src/wire.rs:17 | the component list is the seven names, quoted, separated by single spaces, in parentheses |
| WireFormat.ComponentsNameTheLines | src/wire.rs:17-44 | and these are, in order, the names of the first seven lines |
| WireFormat.SignedHeaders | src/request.rs:131-202 | a signed request's seven headers with every name and value written out |
| RoundTrip.SignThenVerifyIsExact | src/verify.rs:121-163 | for all parts, keys, metadata and clocks, a signed request sent through its headers is rebuilt and verifies if and only if now >= 0 and created-5 <= now <= expires+5, returning the signer's ids and times; otherwise the error is freshness |
| RoundTrip.SignedThenVerified | src/request.rs:131-162 | the same for any received body whose digest is the signed one |
| RoundTrip.HeadersCarryTheRequest | src/request.rs:192-202 | the seven headers have distinct names and a recipient that takes each once rebuilds exactly the signed values, including validated parts and parsed ids |
| RoundTrip.AlteredBodyIsRefused | src/verify.rs:137-140 | a body with another digest is refused as an invalid signature inside the window, whatever the signature check would say |
| RoundTrip.WrongKeyIsRefused | src/verify.rs:126-134 | a signed request presented under a key record of another service or instance is refused as service_id, and under another key id as key_id |
| Verify.FromWireDecision | src/verify.rs:31-51 | a text that is no UUID spelling is refused as service_id or, if only the second is wrong, instance_id; otherwise the parts and three texts are kept and the ids are the ones spelled |
| Verify.AcceptanceDecision | src/verify.rs:121-163 | verification succeeds exactly when identities match, the signature input is in the grammar with this key's id, the clock is in the widened window, the digest text is the body's, the signature text is the encoding of 64 bytes and those check over the rebuilt base |
| Verify.AcceptableIsAccepted | src/verify.rs:121-163 | an acceptable request verifies to the key's ids, the request id and the times its signature input denotes |
| Verify.AcceptanceLifetime | src/verify.rs:225-234 | for one request and key the accepted times form an interval with a constant result, and any two are at most 40 seconds apart |
| Verify.SignatureInputDecision | src/verify.rs:165-200 | a signature input is accepted if and only if it is the label, the fixed components, two digit strings with 0 <= created < expires <= created+30, a 16 to 128 character nonce, a UUID text and the fixed algorithm |
| Verify.GrammarIsAccepted | src/verify.rs:165-200 | such a text parses to the numbers and UUID its parts denote, and its parameters are the text minus the label |
| Verify.AcceptedIsInGrammar | src/verify.rs:165-200 | whatever parses is in the grammar and is the label followed by its verbatim parameters |
| Verify.GrammarIsUnambiguous | src/verify.rs:173-184 | a text splits into its four parts in one way only |
| Verify.SplitOfParametersText | src/verify.rs:169-187 | first-occurrence splitting never picks a wrong boundary when the parts avoid the delimiters |
| Verify.ParseOfSignatureParameters | src/wire.rs:19-28 | parsing what a signer prints returns the same created, expires and key id and the identical parameters |
| Verify.PrintedInputDecision | src/wire.rs:19-28 | an accepted signature input equals what a signer prints for its own parse if and only if neither time has a superfluous leading zero and the key id is 36 characters without capital digits |
| Verify.LeadingZerosAreAccepted | src/verify.rs:216-223 | any zeros before either time of any accepted input give a different text that parses to the same times and key id |
| Verify.OtherSpellingsAreAccepted | src/verify.rs:191-193 | any other spelling of the key id of any accepted input gives a different text that parses to the same times and key id |
| Verify.EveryInputHasAnotherSpelling | src/verify.rs:191-193 | and every accepted input has such a spelling |
| Verify.SplitInputDecision | src/verify.rs:165-200 | an input that splits into four parts is refused for the first wrong one (timestamp, expires, nonce, key id) with that part's error, and otherwise parses to what they denote |
| Verify.UnsplitInputIsRefused | src/verify.rs:165-187 | an input that does not split at the first occurrence of each delimiter is refused as a signature input |
| Verify.VerificationDecision | src/verify.rs:121-163 | the whole decision with its refusals: identity first, then the input's own error, then key id, freshness, digest, form of the signature, and the checker's answer over the base |
| Verify.SignatureHeaderDecision | src/verify.rs:202-214 | a signature text parses to 64 bytes exactly when it is the encoding of those bytes: the header is a bijection |
| Verify.TimestampDecision | src/verify.rs:216-223 | a timestamp parses exactly when it is a non-empty digit string of any length, leading zeros included, whose value fits 64 bits, and then to that value |
| Verify.TimestampRoundTrip | src/verify.rs:216-223 | the timestamp parser inverts the decimal printer on every non-negative 64-bit time |
| Verify.FreshnessDecision | src/verify.rs:225-234 | over all of i64 the saturating test decides as unbounded integers would |
| Decimal.ParseCheckedIsBounded | src/verify.rs:220-222 | parsing digit by digit with overflow checks succeeds exactly when the whole number fits |
| Decimal.ValueOfNatText | src/wire.rs:25-27 | the decimal text of a number is non-empty digits without leading zero and denotes it |
| Decimal.CanonicalDigitsDecision | src/verify.rs:216-223 | printing the value of a non-empty digit string gives the string back if and only if it is "0" or does not start with zero |
| Decimal.ValueBehindZeros | src/verify.rs:216-223 | leading zeros change the digit string and not its value |
| Decimal.TextDecision | src/wire.rs:25-27 | a text is what an integer prints if and only if it is its digit string without superfluous zero, behind a minus sign for negative ones |
| Decimal.ValueIsPlaceValue | src/verify.rs:220-222 | the number a digit string denotes is the sum of its digits times powers of ten |
| Decimal.DigitsInOrder | src/wire.rs:25-27 | the ten digits denote, and are printed for, zero to nine in order |
| Wire.MetadataDecision | src/wire.rs:50-69 | metadata validation is exactly the window 0 <= created < expires <= created+30 and the nonce alphabet and length, with the first failure naming the error; the 64-bit subtraction never wraps where it is evaluated |
| Wire.HeaderValueDecision | src/wire.rs:71-75 | a header value is valid exactly when it is non-empty printable ASCII with no space at either end |
| Wire.UriValueDecision | src/wire.rs:77-79 | a URI value is valid exactly when it is non-empty visible ASCII |
| Wire.DecodeOfBase | src/wire.rs:31-44 | a decoder reads all eight components back out of a signature base of single-line components |
| Wire.BaseOfDecode | src/wire.rs:31-44 | whatever that decoder reads prints back to the same base |
| Wire.SignatureBaseIsInjective | src/wire.rs:31-44 | equal bases of single-line components force all eight components equal, UUIDs included |
| Wire.LineBreaksMakeTheBaseAmbiguous | src/wire.rs:31-44 | without the single-line condition two component lists that differ share a base, so the validators are what makes it injective |
| Wire.ContentDigestDeterminesTheHash | src/wire.rs:46-48 | two bodies have one digest text exactly when they have one SHA-256 value |
| Request.NewRequestPartsDecision | src/request.rs:29-64 | construction succeeds exactly on upper-case method, visible authority without / @ ? #, visible path starting with / without #, and valid content type, keeps every field, and the first bad field names the error |
| Request.TargetUriIsInjective | src/request.rs:78-80 | equal target URIs of validated parts force equal authority and equal path |
| Request.SplitUriOfTargetUri | src/request.rs:78-80 | the authority and the path read back from the target URI |
| Request.SignWithDecision | src/request.rs:131-162 | signing succeeds exactly for a valid window and nonce, the first failure names the error, and the result depends on the signer only through its answer on the one message |
| Request.GenerateNonce | src/request.rs:208-212 | a generated nonce has 32 characters of the accepted alphabet and carries all 24 random bytes; a failed random source is reported |
| Request.EncodedNonceIsUsable | src/request.rs:205-212 | any 24 bytes encode to a nonce that signing cannot reject for any valid window |
| Enrollment.ProofMessage | src/enrollment.rs:167-194 | the message built by the loop is the concatenation of the nine length-prefixed fields, laid out byte by byte as in LayoutDecision |
| Enrollment.LayoutDecision | src/enrollment.rs:167-194 | bytes are the proof of given inputs if and only if they have the layout: context text at 4, challenge at 34, service id at 70, instance id at 90, key id at 110, key at 130, endpoint at 166, then pod id and the token's digest as the last 32 bytes, each behind four big-endian length bytes |
| Enrollment.SubmissionTexts | src/enrollment.rs:79-93 | every text of a submission, the signature being over the message so laid out for the trimmed fields |
| Enrollment.FrameAll | src/enrollment.rs:188-193 | the growing buffer holds, at every step, the framed fields so far |
| Enrollment.ProofLength | src/enrollment.rs:167-194 | a proof message has exactly 206 bytes more than endpoint and pod id |
| Decodability.ProofDecision | src/enrollment.rs:167-194 | for all byte lengths a and b: every message with an endpoint of a and a pod id of b bytes determines its inputs, up to the token digest and among inputs of any size, if and only if both are below 2^32 or the pod id's four length bytes are not UTF-8 |
| Decodability.SignedProofDecision | src/enrollment.rs:61-94 | the same for messages and rivals that signing accepts: if and only if a < 9, b < 1, both a < 2^32+9 and b < 2^32+1, or the length bytes are not UTF-8 |
| Decodability.ProofDeterminesItsInputs | src/enrollment.rs:167-194 | a message of separable lengths fixes challenge, the three ids, key, endpoint, pod id and token digest among all inputs of any size |
| Decodability.SignedProofDeterminesItsInputs | src/enrollment.rs:61-94 | a signed message of lengths separable among signed ones fixes them among all fields that signing accepts |
| Decodability.EqualProofs | src/enrollment.rs:167-194 | equal messages of any size have equal fixed fields and token digests, and equal bytes for the framed pair of endpoint and pod id |
| Decodability.LongerTextNeedsATextMark | src/enrollment.rs:190 | two pairs of texts framed to the same bytes with different first lengths differ by 2^32 or more, and the length bytes of the second text are UTF-8 |
| Decodability.OversizedFieldsShareAProof | src/enrollment.rs:190 | for every endpoint and every pod id whose length bytes are a text, that text and any filler of 2^32-4 bytes may stand behind the endpoint or before the pod id without changing the message |
| Decodability.SignableDecision | src/enrollment.rs:68-78 | signing succeeds exactly when the trimmed endpoint, the trimmed pod id and the token are ones that reach the signer |
| Decodability.TwoEnrollmentsShareASignature | src/enrollment.rs:61-94 | for every credential, challenge and token, two enrollments with different endpoints and pod ids both succeed with the same signature |
| Enrollment.ProofIsDecodable | src/enrollment.rs:167-194 | a decoder reads the nine fields back out of a message whose endpoint and pod id are below 2^32 bytes |
| Enrollment.UnframeOfFrames | src/enrollment.rs:189-192 | reading frames inverts writing them for fields below 2^32 bytes |
| Enrollment.FramesOfUnframe | src/enrollment.rs:189-192 | whatever bytes unframe, frame back to themselves |
| Enrollment.SubmissionDecision | src/enrollment.rs:68-93 | signing an enrollment succeeds exactly when the trimmed endpoint is https:// followed by something, the pod id is not all whitespace and the token is not empty, the first failure names the error, and the submission carries the trimmed fields |
| Enrollment.SubmissionReproducesItsProof | src/enrollment.rs:55-94 | decoding a submission's texts, trimming again and rebuilding the message gives exactly the signed bytes and signature |
| Enrollment.SigningIgnoresPadding | src/enrollment.rs:68-93 | whitespace around endpoint and pod id leaves the submission and its signature, or the error, unchanged |
| Enrollment.ChallengeDecision | src/enrollment.rs:148-154 | an issued challenge decodes to 32 bytes exactly when it is their unpadded URL-safe encoding |
| Enrollment.ChallengeIsEchoed | src/enrollment.rs:88 | a submission made from a decoded challenge carries the issued text character for character |
| Transport.PemDecision | src/transport.rs:186-208 | the gate accepts exactly UTF-8 text whose first begin marker is followed by base64, with whitespace anywhere, of bytes starting with 0x30, before an end marker; every refusal is the trust-anchor error |
| Transport.CertificateFileIsAccepted | src/transport.rs:186-208 | the base64 of any bytes starting with 0x30, cut into lines in any way with LF or CR LF breaks, is accepted between the literal markers |
| Transport.PemTextIsAccepted | src/transport.rs:186-208 | completeness: any such certificate text is accepted, whatever leads without an earlier marker and whatever trails |
| Transport.AcceptedIsPemText | src/transport.rs:186-208 | soundness: an accepted input decomposes that way, and the decoded body starts with 0x30 |
| Transport.MarkedBodyDecides | src/transport.rs:186-208 | what the gate answers is a function of the marked body alone: leading and trailing text do not matter |
| Transport.BlankRunDecision | src/transport.rs:193-197 | whitespace inserted at any position of any marked body leaves the verdict unchanged if and only if it does not complete an end marker behind a certificate body; accepted texts stay accepted |
| Transport.InsertedSpaceCompletesAMarker | src/transport.rs:190-197 | behind any certificate body, an end marker missing its space leaves the text refused and the one inserted space makes it accepted |
| Text.WithoutWhitespaceIgnoresBlanks | src/transport.rs:193-197 | dropping whitespace gives the same text with or without an inserted blank run |
| Text.SplitOnceDecision | src/verify.rs:173-184 | splitting yields two parts exactly when the text is their joint at the delimiter and no earlier occurrence exists |
| Text.ListedCodePointsAreDropped | src/enrollment.rs:68-69 | each of the 25 White_Space code points is trimmed at either end and filtered everywhere |
| Text.OtherCodePointsAreKept | src/transport.rs:193-197 | every other character is kept by both |
| Text.TrimIgnoresPadding | src/enrollment.rs:68-69 | trimming is unaffected by added surrounding whitespace |
| Text.TrimIsTheTrimmedCore | src/enrollment.rs:68-69 | trimming is the one core between two whitespace runs that has none at its ends |
| Base64.EncodeAt | src/wire.rs:81-83 | the k-th character of an encoding is the alphabet of RFC 4648 at bits 6k to 6k+5 of the bytes |
| Base64.EncodePadding | src/wire.rs:81-83 | behind them stands exactly the padding of the engine, which fixes the length |
| Base64.DecodeOfEncode | src/wire.rs:81-83 | both engines decode what they encode |
| Base64.EncodeOfDecode | src/verify.rs:207-209 | both engines accept only the one encoding of the bytes they return |
| Uuids.ParseDecision | src/verify.rs:41-46 | a text parses to a UUID if and only if it is its 32 digits, in either case, plain, grouped 8-4-4-4-12, braced or as a URN |
| Uuids.UuidTextDecision | src/verify.rs:41-46 | a text is refused if and only if it is no 32 hexadecimal digits in one of those shapes |
| Uuids.ToTextDecision | src/request.rs:196-198 | the printed text is the one spelling of 36 characters without capitals |
| Uuids.ParseOfToText | src/verify.rs:41-46 | a printed UUID parses back to itself |
| Uuids.CanonicalSpellingDecision | src/verify.rs:191-193 | printing a parsed UUID gives the text back if and only if it has 36 characters and no capital digit |
| Uuids.OtherSpellings | src/verify.rs:191-193 | the plain, braced and URN spellings of any UUID parse to it |
| Uuids.HyphenatedIgnoresCase | src/verify.rs:191-193 | every choice of case for the digits of a hyphenated spelling parses alike |
| Uuids.ParsedChars | src/verify.rs:191-193 | no accepted UUID spelling contains a quote, a line break or another delimiter of the wire format |
| Utf8.TableIsExact | src/transport.rs:187 | the bytes of a character are the ones of the table of RFC 3629, for every character |
| Utf8.DecodeOfEncode | src/transport.rs:187 | decoding inverts encoding, so a text is determined by its bytes |
| Utf8.EncodeOfDecode | src/transport.rs:187 | only the bytes of a text decode |
| Utf8.AsciiTest | src/wire.rs:61-64 | a byte-wise test that refuses non-ASCII is a test on characters, and byte length is then character count |

## Left out

- The HTTP client (`src/transport.rs` outside the PEM gate): sending, response handling and certificate installation.
- Ed25519, SHA-256 and the random source: they enter as arguments; malformed public keys are one answer a checker may give.
- `ClientPublicKey::restore` and key generation: they only wrap library calls; key records here are any ids and 32 bytes.
- `KernelIdentity` and every JSON shape: their parsing is done by a library that is not part of this model.
- Error display and redacted debug output.
- Nonce caches, key refetching and retries: the repository has none; within the 40-second lifetime a replay is accepted.
- The kernel's own checks: a recipient of an enrollment is represented only by recomputing from this crate's functions.
- A recipient's header handling: the source starts at `from_wire`; `RoundTrip.Receive` takes each header exactly once, rebuilds the parts and calls it.
- `SignedRequest::sign` (`src/request.rs:109-119`): it is `sign_with` applied to a credential's record and signing function.
- Accessors of the records.
