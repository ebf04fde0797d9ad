/**
 * Byte strings, result wrappers and the cryptographic primitives the QGP
 * protocol layer is built on.
 *
 * The primitives (BLAKE2b, Zstandard, NaCl SecretBox, the X25519 `Box`
 * precomputation, ML-KEM-512) are not modelled: they are function values
 * bundled in `Primitives`, and the only facts known about them are the
 * axioms stated by `CodecAxioms` and `AgreementAxioms`, which the lemmas
 * that rely on them take as preconditions.
 */
module Primitives {

  type byte = x: int | 0 <= x < 256
  type Bytes = seq<byte>

  /** `SecretBox.KEY_SIZE`, also the BLAKE2b `digest_size` used everywhere. */
  const KeySize: nat := 32
  /** `SecretBox.NONCE_SIZE` (XSalsa20 nonce). */
  const NonceSize: nat := 24
  /** Length of the Poly1305 tag that `SecretBox.encrypt` puts in the ciphertext. */
  const MacSize: nat := 16

  type Key = k: Bytes | |k| == KeySize witness seq(KeySize, _ => 0)
  type Nonce = n: Bytes | |n| == NonceSize witness seq(NonceSize, _ => 0)

  datatype Option<T> = None | Some(value: T)

  datatype Result<T, E> = Ok(value: T) | Err(error: E)

  /** The exceptions the envelope codec can raise, as values. */
  datatype CodecError =
    | InvalidKeyMaterial     // SecretBox(key) with a key that is not 32 bytes
    | InvalidNonce           // nonce ++ ciphertext shorter than the 24-byte nonce
    | AuthenticationFailure  // Poly1305 verification failed
    | DecompressionFailure   // zstd could not decompress the opened bytes

  datatype Primitives = Primitives(
    /** blake2b(data, digest_size=32) */
    blake2b32: Bytes -> Key,
    /** zstd.compress */
    compress: Bytes -> Bytes,
    /** zstd.decompress; None where it raises */
    decompress: Bytes -> Option<Bytes>,
    /** SecretBox(key).encrypt(msg, nonce).ciphertext: the sealed bytes, tag included, nonce excluded */
    seal: (Key, Nonce, Bytes) -> Bytes,
    /** crypto_secretbox_open(ciphertext, nonce, key); None where verification fails */
    open: (Key, Nonce, Bytes) -> Option<Bytes>,
    /** PrivateKey(sk).public_key: the X25519 public key of a private scalar */
    eccPublic: Bytes -> Bytes,
    /** Box(sk, pk).shared_key(): X25519 then the NaCl precomputation; None where it raises */
    ecdh: (Bytes, Bytes) -> Option<Bytes>,
    /** The ML-KEM-512 encapsulation key belonging to a decapsulation key */
    kemPublic: Bytes -> Bytes,
    /** Encapsulation to a public key with the given random coins, as (ciphertext, shared secret) */
    encaps: (Bytes, Bytes) -> Option<(Bytes, Bytes)>,
    /** Decapsulation of a ciphertext with a private key; None where it raises */
    decaps: (Bytes, Bytes) -> Option<Bytes>
  )

  /** Decompression undoes compression, and opening undoes sealing under the same key and nonce. */
  ghost predicate CodecAxioms(p: Primitives) {
    && (forall m :: p.decompress(p.compress(m)) == Some(m))
    && (forall k, n, m :: p.open(k, n, p.seal(k, n, m)) == Some(m))
    && (forall k, n, m :: |p.seal(k, n, m)| == |m| + MacSize)
  }

  /** The KEM recovers, from the ciphertext, the secret that encapsulation produced. */
  ghost predicate KemCorrectAt(p: Primitives, dk: Bytes, coins: Bytes) {
    var e := p.encaps(p.kemPublic(dk), coins);
    e.Some? ==> p.decaps(dk, e.value.0) == Some(e.value.1)
  }

  /** ECDH symmetry and ML-KEM correctness. */
  ghost predicate AgreementAxioms(p: Primitives) {
    && (forall a, b :: p.ecdh(a, p.eccPublic(b)) == p.ecdh(b, p.eccPublic(a)))
    && (forall dk, coins :: KemCorrectAt(p, dk, coins))
  }
}
