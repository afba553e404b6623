/** Signing identities. SHA-256 and Ed25519 are library calls: they enter the model as function values. */
module Credential {
  import opened Errors
  import opened Int64
  import opened Uuids

  const ALGORITHM := "ed25519"
  const PUBLIC_KEY_LENGTH := 32
  const SIGNATURE_LENGTH := 64

  type KeyBytes = b: seq<byte> | |b| == 32 witness seq(32, _ => 0)

  type Signature = b: seq<byte> | |b| == 64 witness seq(64, _ => 0)

  type Digest = b: seq<byte> | |b| == 32 witness seq(32, _ => 0)

  /** SHA-256: any function from bytes to 32 bytes. */
  type Sha256 = seq<byte> -> Digest

  /** Checks a signature over a message under raw key bytes. */
  type Checker = (KeyBytes, seq<byte>, Signature) -> Result<()>

  datatype ClientPublicKey = ClientPublicKey(
    serviceId: Uuid,
    instanceId: Uuid,
    keyId: Uuid,
    publicKey: KeyBytes
  )

  /** A credential signs with its own key; Ed25519 signing is deterministic. */
  datatype ClientCredential = ClientCredential(publicKey: ClientPublicKey, sign: seq<byte> -> Signature)
}
