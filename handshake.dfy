/**
 * The hybrid handshake: each side hashes the X25519 secret followed by the
 * ML-KEM-512 secret with BLAKE2b-256. `initiate` encapsulates to the
 * receiver's KEM key; `respond` decapsulates the ciphertext it is sent.
 * Both are stateless; the randomness of encapsulation is a parameter.
 */
module Handshake {
  import opened Primitives

  /** The dict returned by `initiate`: 'ciphertext_pq' and 'shared_key'. */
  datatype Initiation = Initiation(ciphertextPq: Bytes, sharedKey: Key)

  /** The exceptions the handshake's primitives can raise, as values. */
  datatype HandshakeError = EcdhFailure | EncapsulationFailure | DecapsulationFailure

  /** BLAKE2b-256 of the ECC secret followed by the PQ secret; the order is part of the protocol. */
  function Combine(p: Primitives, eccSecret: Bytes, pqSecret: Bytes): (key: Key)
    ensures |key| == KeySize
  {
    p.blake2b32(eccSecret + pqSecret)
  }

  /**
   * ECC secret first (its failure stops the handshake before encapsulation),
   * then encapsulation; the KEM ciphertext is returned unchanged beside the
   * 32-byte key derived from both secrets.
   */
  function Initiate(p: Primitives, senderEccSk: Bytes, receiverEccPk: Bytes, receiverPqPk: Bytes,
                    coins: Bytes): (r: Result<Initiation, HandshakeError>)
    ensures p.ecdh(senderEccSk, receiverEccPk).None? ==> r == Err(EcdhFailure)
    ensures p.ecdh(senderEccSk, receiverEccPk).Some? && p.encaps(receiverPqPk, coins).None? ==>
              r == Err(EncapsulationFailure)
    ensures r.Ok? <==> p.ecdh(senderEccSk, receiverEccPk).Some? && p.encaps(receiverPqPk, coins).Some?
    ensures r.Ok? ==>
              && r.value.ciphertextPq == p.encaps(receiverPqPk, coins).value.0
              && r.value.sharedKey == p.blake2b32(p.ecdh(senderEccSk, receiverEccPk).value
                                                  + p.encaps(receiverPqPk, coins).value.1)
  {
    match p.ecdh(senderEccSk, receiverEccPk)
    case None => Err(EcdhFailure)
    case Some(eccSecret) =>
      match p.encaps(receiverPqPk, coins)
      case None => Err(EncapsulationFailure)
      case Some((ciphertextPq, pqSecret)) =>
        Ok(Initiation(ciphertextPq, Combine(p, eccSecret, pqSecret)))
  }

  /** The same derivation on the receiving side: ECC secret first, decapsulated PQ secret second. */
  function Respond(p: Primitives, receiverEccSk: Bytes, senderEccPk: Bytes, receiverPqSk: Bytes,
                   ciphertextPq: Bytes): (r: Result<Key, HandshakeError>)
    ensures p.ecdh(receiverEccSk, senderEccPk).None? ==> r == Err(EcdhFailure)
    ensures p.ecdh(receiverEccSk, senderEccPk).Some? && p.decaps(receiverPqSk, ciphertextPq).None? ==>
              r == Err(DecapsulationFailure)
    ensures r.Ok? <==> p.ecdh(receiverEccSk, senderEccPk).Some? && p.decaps(receiverPqSk, ciphertextPq).Some?
    ensures r.Ok? ==>
              r.value == p.blake2b32(p.ecdh(receiverEccSk, senderEccPk).value
                                     + p.decaps(receiverPqSk, ciphertextPq).value)
  {
    match p.ecdh(receiverEccSk, senderEccPk)
    case None => Err(EcdhFailure)
    case Some(eccSecret) =>
      match p.decaps(receiverPqSk, ciphertextPq)
      case None => Err(DecapsulationFailure)
      case Some(pqSecret) => Ok(Combine(p, eccSecret, pqSecret))
  }

  /**
   * Agreement: when A initiates towards B's key pairs and succeeds, B
   * responding to the ciphertext A produced obtains A's shared key, bit for
   * bit. Only ECDH symmetry and KEM correctness are used.
   */
  lemma Agreement(p: Primitives, aEccSk: Bytes, bEccSk: Bytes, bPqSk: Bytes, coins: Bytes)
    requires AgreementAxioms(p)
    ensures var i := Initiate(p, aEccSk, p.eccPublic(bEccSk), p.kemPublic(bPqSk), coins);
            i.Ok? ==> Respond(p, bEccSk, p.eccPublic(aEccSk), bPqSk, i.value.ciphertextPq) == Ok(i.value.sharedKey)
  {
    assert KemCorrectAt(p, bPqSk, coins);
  }

  /**
   * For matching key pairs, the initiator's ECDH step fails exactly when the
   * responder's does: neither side can fail there alone.
   */
  lemma EcdhFailsOnBothSides(p: Primitives, aEccSk: Bytes, bEccSk: Bytes, bPqSk: Bytes, coins: Bytes, ct: Bytes)
    requires AgreementAxioms(p)
    ensures Initiate(p, aEccSk, p.eccPublic(bEccSk), p.kemPublic(bPqSk), coins) == Err(EcdhFailure) <==>
            Respond(p, bEccSk, p.eccPublic(aEccSk), bPqSk, ct) == Err(EcdhFailure)
  {
  }
}
