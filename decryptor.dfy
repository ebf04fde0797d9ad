/**
 * `Decryptor.decrypt`: prepend the nonce to the ciphertext, let SecretBox
 * take the nonce back off the front and verify and open the rest, then
 * decompress.
 */
module Decryptor {
  import opened Primitives
  import Encryptor

  /**
   * `SecretBox(key).decrypt(combined)` with no explicit nonce: the first
   * `NonceSize` bytes are the nonce and the remainder is the sealed box.
   */
  function OpenCombined(p: Primitives, key: Key, combined: Bytes): (r: Result<Bytes, CodecError>)
    ensures |combined| < NonceSize ==> r == Err(InvalidNonce)
    ensures r.Ok? ==> p.open(key, combined[..NonceSize], combined[NonceSize..]) == Some(r.value)
    ensures r.Err? && |combined| >= NonceSize ==> r == Err(AuthenticationFailure)
    ensures r.Err? <==> |combined| < NonceSize || p.open(key, combined[..NonceSize], combined[NonceSize..]).None?
  {
    if |combined| < NonceSize then Err(InvalidNonce)
    else
      match p.open(key, combined[..NonceSize], combined[NonceSize..])
      case None => Err(AuthenticationFailure)
      case Some(compressed) => Ok(compressed)
  }

  /**
   * Authentication runs before decompression: when the box does not open,
   * nothing is decompressed and the error is returned; otherwise the result
   * is the decompression of what the box opened to.
   */
  function Decrypt(p: Primitives, sharedKey: Bytes, nonce: Bytes, ciphertext: Bytes): (r: Result<Bytes, CodecError>)
    ensures |sharedKey| != KeySize ==> r == Err(InvalidKeyMaterial)
    ensures |sharedKey| == KeySize && OpenCombined(p, sharedKey, nonce + ciphertext).Err? ==>
              r == Err(OpenCombined(p, sharedKey, nonce + ciphertext).error)
    ensures r.Ok? <==>
              && |sharedKey| == KeySize
              && OpenCombined(p, sharedKey, nonce + ciphertext).Ok?
              && p.decompress(OpenCombined(p, sharedKey, nonce + ciphertext).value).Some?
    ensures r.Ok? ==> Some(r.value) == p.decompress(OpenCombined(p, sharedKey, nonce + ciphertext).value)
  {
    if |sharedKey| != KeySize then Err(InvalidKeyMaterial)
    else
      var combined := nonce + ciphertext;
      match OpenCombined(p, sharedKey, combined)
      case Err(e) => Err(e)
      case Ok(compressed) =>
        match p.decompress(compressed)
        case None => Err(DecompressionFailure)
        case Some(plaintext) => Ok(plaintext)
  }

  /** With a nonce of the right size, the box is opened under exactly that nonce and ciphertext. */
  lemma FullNonceIsUsedAsGiven(p: Primitives, sharedKey: Key, nonce: Nonce, ciphertext: Bytes)
    ensures Decrypt(p, sharedKey, nonce, ciphertext) ==
              match p.open(sharedKey, nonce, ciphertext)
              case None => Err(AuthenticationFailure)
              case Some(compressed) =>
                if p.decompress(compressed).Some? then Ok(p.decompress(compressed).value)
                else Err(DecompressionFailure)
  {
  }

  /**
   * The nonce length is not checked: a shorter nonce is completed with the
   * leading bytes of the ciphertext, which then are missing from the box.
   */
  lemma {:induction false} ShortNonceBorrowsCiphertext(p: Primitives, sharedKey: Key, nonce: Bytes, ciphertext: Bytes)
    requires |nonce| < NonceSize <= |nonce| + |ciphertext|
    ensures var k := NonceSize - |nonce|;
            OpenCombined(p, sharedKey, nonce + ciphertext) ==
              match p.open(sharedKey, nonce + ciphertext[..k], ciphertext[k..])
              case None => Err(AuthenticationFailure)
              case Some(compressed) => Ok(compressed)
  {
    var k := NonceSize - |nonce|;
    var combined := nonce + ciphertext;
    assert combined[..NonceSize] == nonce + ciphertext[..k];
    assert combined[NonceSize..] == ciphertext[k..];
  }

  /**
   * Round trip, the empty plaintext included: whatever `Encrypt` returns
   * under a key and nonce, `Decrypt` under the same key turns back into the
   * plaintext.
   */
  lemma RoundTrip(p: Primitives, sharedKey: Bytes, plaintext: Bytes, nonce: Nonce)
    requires CodecAxioms(p)
    ensures var e := Encryptor.Encrypt(p, sharedKey, plaintext, nonce);
            e.Ok? ==> Decrypt(p, sharedKey, e.value.nonce, e.value.ciphertext) == Ok(plaintext)
  {
  }
}
