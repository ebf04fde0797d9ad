/**
 * `Encryptor.encrypt`: compress the plaintext, then seal it with SecretBox
 * under the shared key and a nonce. The random nonce draw is a parameter.
 */
module Encryptor {
  import opened Primitives

  /** The dict returned by `encrypt`: exactly the fields 'nonce' and 'ciphertext'. */
  datatype Envelope = Envelope(nonce: Nonce, ciphertext: Bytes)

  /**
   * `SecretBox(key).encrypt(message, nonce)`: an `EncryptedMessage`, which
   * as bytes is the nonce followed by the sealed box.
   */
  function BoxEncrypt(p: Primitives, key: Key, message: Bytes, nonce: Nonce): (combined: Bytes)
    ensures |combined| >= NonceSize && combined[..NonceSize] == nonce
  {
    nonce + p.seal(key, nonce, message)
  }

  /**
   * Compression comes first, then sealing; the envelope's ciphertext is the
   * `.ciphertext` view of the box, which leaves the leading nonce out. A key
   * that SecretBox refuses (not 32 bytes) fails before anything is sealed.
   */
  function Encrypt(p: Primitives, sharedKey: Bytes, plaintext: Bytes, nonce: Nonce): (r: Result<Envelope, CodecError>)
    ensures r.Ok? <==> |sharedKey| == KeySize
    ensures r.Err? ==> r.error == InvalidKeyMaterial
    ensures r.Ok? ==> r.value.nonce == nonce
    ensures r.Ok? ==> r.value.ciphertext == p.seal(sharedKey, nonce, p.compress(plaintext))
  {
    var compressed := p.compress(plaintext);
    if |sharedKey| != KeySize then Err(InvalidKeyMaterial)
    else
      var boxed := BoxEncrypt(p, sharedKey, compressed, nonce);
      Ok(Envelope(nonce, boxed[NonceSize..]))
  }

  /**
   * The returned ciphertext is what follows the nonce in the box's output,
   * so the nonce and the ciphertext put back together are that output; the
   * ciphertext is the compressed plaintext plus the tag, with no nonce bytes.
   */
  lemma CiphertextExcludesNonce(p: Primitives, sharedKey: Key, plaintext: Bytes, nonce: Nonce)
    requires CodecAxioms(p)
    ensures var e := Encrypt(p, sharedKey, plaintext, nonce).value;
            var boxed := BoxEncrypt(p, sharedKey, p.compress(plaintext), nonce);
            && e.nonce + e.ciphertext == boxed
            && |e.ciphertext| == |boxed| - NonceSize == |p.compress(plaintext)| + MacSize
  {
  }
}
