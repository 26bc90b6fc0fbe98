/**
 * The cryptographic primitives the key vault and the signer call, held as
 * uninterpreted functions in a record that every operation receives, plus
 * the idealised properties the proofs assume of them.
 *
 * - `pbkdf2`: PBKDF2 with HMAC-SHA3-256 (section 5.2 of RFC 8018), from a
 *   password, a salt and an iteration count to a 32-byte key;
 * - `aesGcmEncrypt` / `aesGcmDecrypt`: AES-256 in Galois/Counter Mode (NIST
 *   SP 800-38D) with a 12-byte nonce; the ciphertext carries the tag and
 *   decryption answers None when the tag does not verify;
 * - `isScalar`: whether 32 bytes form a valid P-256 private scalar
 *   (`SigningKey::from_slice` succeeds);
 * - `publicPoint`: the 65-byte uncompressed SEC1 encoding (leading byte
 *   0x04, then X and Y) of the public key of a scalar;
 * - `sha3`: SHA3-256 (FIPS 202);
 * - `ecdsaSign`: p256's `Signer::sign` of a message under a scalar, which
 *   hashes its input with SHA-256 and signs with the deterministic nonce of
 *   section 3.2 of RFC 6979, returning the 64-byte r||s signature.
 */
module Crypto {
  import opened Bytes
  import opened Wrappers

  const SaltLength: nat := 32
  const NonceLength: nat := 12
  const ScalarLength: nat := 32
  const Pbkdf2Iterations: nat := 600000

  /** Fresh random bytes drawn for a salt, a nonce or a private scalar. */
  type Salt = s: seq<byte> | |s| == SaltLength witness seq(32, _ => 0)
  type Nonce = s: seq<byte> | |s| == NonceLength witness seq(12, _ => 0)
  type Scalar = s: seq<byte> | |s| == ScalarLength witness seq(32, _ => 0)

  /** An uncompressed curve point. */
  type Point = s: seq<byte> | |s| == 65 witness seq(65, _ => 4)

  /** A SHA3-256 digest. */
  type Digest = s: seq<byte> | |s| == 32 witness seq(32, _ => 0)

  /** A fixed-size ECDSA signature: r then s, 32 bytes each. */
  type Signature = s: seq<byte> | |s| == 64 witness seq(64, _ => 0)

  datatype Primitives = Primitives(
    pbkdf2: (seq<byte>, seq<byte>, nat) -> seq<byte>,
    aesGcmEncrypt: (seq<byte>, seq<byte>, seq<byte>) -> seq<byte>,
    aesGcmDecrypt: (seq<byte>, seq<byte>, seq<byte>) -> Option<seq<byte>>,
    isScalar: seq<byte> -> bool,
    publicPoint: seq<byte> -> Point,
    sha3: seq<byte> -> Digest,
    ecdsaSign: (seq<byte>, seq<byte>) -> Signature)

  /** The idealised behaviour the proofs rely on: authenticated decryption
      under the right key and nonce returns the plaintext; under any other
      key it fails; and the key derivation separates passwords (no two
      passwords derive the same key from one salt). */
  ghost predicate Sound(p: Primitives) {
    && (forall k, n, m :: p.aesGcmDecrypt(k, n, p.aesGcmEncrypt(k, n, m)) == Some(m))
    && (forall k, k', n, m :: k != k' ==> p.aesGcmDecrypt(k', n, p.aesGcmEncrypt(k, n, m)) == None)
    && (forall pw, pw', salt, i :: pw != pw' ==> p.pbkdf2(pw, salt, i) != p.pbkdf2(pw', salt, i))
  }
}
