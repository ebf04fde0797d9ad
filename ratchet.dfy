/**
 * The symmetric ratchet: one chain key, replaced by its BLAKE2b-256 hash on
 * every encryption and every decryption; the new chain key is also the
 * message key. Message sealing and opening are those of the envelope codec.
 */
module Ratchet {
  import opened Primitives
  import Encryptor
  import Decryptor

  /** H^n(root): the chain key after n steps from `root`. */
  function Chain(h: Bytes -> Key, root: Bytes, n: nat): (key: Bytes)
    ensures n > 0 ==> |key| == KeySize
    ensures n == 0 ==> key == root
  {
    if n == 0 then root else h(Chain(h, root, n - 1))
  }

  /** Stepping m times and then n times is stepping m + n times. */
  lemma {:induction false} ChainCompose(h: Bytes -> Key, root: Bytes, m: nat, n: nat)
    ensures Chain(h, Chain(h, root, m), n) == Chain(h, root, m + n)
  {
    if n > 0 {
      ChainCompose(h, root, m, n - 1);
    }
  }

  /** A step taken first: n more steps from H(root) are n + 1 steps from root. */
  lemma {:induction false} ChainFromNext(h: Bytes -> Key, root: Bytes, n: nat)
    ensures Chain(h, h(root), n) == Chain(h, root, n + 1)
  {
    ChainCompose(h, root, 1, n);
  }

  /** The envelopes a ratchet at chain key `key` emits for `plaintexts`, one step each. */
  function SealAll(p: Primitives, key: Bytes, plaintexts: seq<Bytes>, nonces: seq<Nonce>): (envelopes: seq<Encryptor.Envelope>)
    requires |plaintexts| == |nonces|
    ensures |envelopes| == |plaintexts|
    decreases |plaintexts|
  {
    if plaintexts == [] then []
    else
      var messageKey := p.blake2b32(key);
      [Encryptor.Encrypt(p, messageKey, plaintexts[0], nonces[0]).value]
        + SealAll(p, messageKey, plaintexts[1..], nonces[1..])
  }

  /** What a ratchet at chain key `key` decrypts from `envelopes`, stopping at the first failure. */
  function OpenAll(p: Primitives, key: Bytes, envelopes: seq<Encryptor.Envelope>): (r: Result<seq<Bytes>, CodecError>)
    ensures r.Ok? ==> |r.value| == |envelopes|
    decreases |envelopes|
  {
    if envelopes == [] then Ok([])
    else
      var messageKey := p.blake2b32(key);
      match Decryptor.Decrypt(p, messageKey, envelopes[0].nonce, envelopes[0].ciphertext)
      case Err(e) => Err(e)
      case Ok(plaintext) =>
        match OpenAll(p, messageKey, envelopes[1..])
        case Err(e) => Err(e)
        case Ok(rest) => Ok([plaintext] + rest)
  }

  /** The i-th envelope is sealed under the (i + 1)-th chain key H^(i+1)(key). */
  lemma {:induction false} SealAllUsesChain(p: Primitives, key: Bytes, plaintexts: seq<Bytes>, nonces: seq<Nonce>, i: nat)
    requires |plaintexts| == |nonces|
    requires i < |plaintexts|
    ensures |Chain(p.blake2b32, key, i + 1)| == KeySize
    ensures SealAll(p, key, plaintexts, nonces)[i] ==
              Encryptor.Encrypt(p, Chain(p.blake2b32, key, i + 1), plaintexts[i], nonces[i]).value
    decreases i
  {
    if i > 0 {
      SealAllUsesChain(p, p.blake2b32(key), plaintexts[1..], nonces[1..], i - 1);
      ChainFromNext(p.blake2b32, key, i);
    }
  }

  /**
   * When the whole sequence decrypts, the i-th plaintext is the decryption
   * of the i-th envelope under the (i + 1)-th chain key H^(i+1)(key).
   */
  lemma {:induction false} OpenAllUsesChain(p: Primitives, key: Bytes, envelopes: seq<Encryptor.Envelope>, i: nat)
    requires i < |envelopes|
    requires OpenAll(p, key, envelopes).Ok?
    ensures Decryptor.Decrypt(p, Chain(p.blake2b32, key, i + 1), envelopes[i].nonce, envelopes[i].ciphertext) ==
              Ok(OpenAll(p, key, envelopes).value[i])
    decreases i
  {
    if i > 0 {
      OpenAllUsesChain(p, p.blake2b32(key), envelopes[1..], i - 1);
      ChainFromNext(p.blake2b32, key, i);
    }
  }

  /**
   * Lockstep: a receiver seeded with the sender's key that decrypts the
   * sender's envelopes in the order they were produced recovers every
   * plaintext.
   */
  lemma {:induction false} Lockstep(p: Primitives, key: Bytes, plaintexts: seq<Bytes>, nonces: seq<Nonce>)
    requires CodecAxioms(p)
    requires |plaintexts| == |nonces|
    ensures OpenAll(p, key, SealAll(p, key, plaintexts, nonces)) == Ok(plaintexts)
    decreases |plaintexts|
  {
    if plaintexts != [] {
      var messageKey := p.blake2b32(key);
      var envelopes := SealAll(p, key, plaintexts, nonces);
      Decryptor.RoundTrip(p, messageKey, plaintexts[0], nonces[0]);
      Lockstep(p, messageKey, plaintexts[1..], nonces[1..]);
      assert envelopes[1..] == SealAll(p, messageKey, plaintexts[1..], nonces[1..]);
      assert plaintexts == [plaintexts[0]] + plaintexts[1..];
    }
  }

  /** `SymmetricRatchet`: the chain key is the only state; the step count is ghost. */
  class SymmetricRatchet {
    const prims: Primitives
    var chainKey: Bytes
    ghost const rootKey: Bytes
    ghost var steps: nat

    /** The chain key is always H^steps(root). */
    ghost predicate Valid()
      reads this
    {
      chainKey == Chain(prims.blake2b32, rootKey, steps)
    }

    /** The root key is stored as the chain key unchanged (its length is not checked); no step is taken. */
    constructor (prims: Primitives, rootKey: Bytes)
      ensures Valid()
      ensures this.prims == prims && this.rootKey == rootKey
      ensures chainKey == rootKey && steps == 0
    {
      this.prims := prims;
      this.rootKey := rootKey;
      chainKey := rootKey;
      steps := 0;
    }

    /** `_kdf`: replaces the chain key by its hash and returns the new chain key as the message key. */
    method Kdf() returns (messageKey: Key)
      requires Valid()
      modifies this
      ensures Valid()
      ensures chainKey == prims.blake2b32(old(chainKey)) && messageKey == chainKey
      ensures steps == old(steps) + 1
    {
      chainKey := prims.blake2b32(chainKey);
      steps := steps + 1;
      messageKey := chainKey;
    }

    /**
     * One step, then the envelope codec under the new message key; the key
     * is 32 bytes, so sealing never fails on it.
     */
    method Encrypt(plaintext: Bytes, nonce: Nonce) returns (envelope: Encryptor.Envelope)
      requires Valid()
      modifies this
      ensures Valid()
      ensures chainKey == prims.blake2b32(old(chainKey)) && steps == old(steps) + 1
      ensures envelope.nonce == nonce
      ensures envelope.ciphertext == prims.seal(chainKey, nonce, prims.compress(plaintext))
    {
      var messageKey := Kdf();
      var sealed := Encryptor.Encrypt(prims, messageKey, plaintext, nonce);
      envelope := sealed.value;
    }

    /**
     * One step, then the envelope codec under the new message key. The step
     * is taken before the box is opened, so a failed decryption still
     * consumes it.
     */
    method Decrypt(nonce: Bytes, ciphertext: Bytes) returns (r: Result<Bytes, CodecError>)
      requires Valid()
      modifies this
      ensures Valid()
      ensures chainKey == prims.blake2b32(old(chainKey)) && steps == old(steps) + 1
      ensures r == Decryptor.Decrypt(prims, chainKey, nonce, ciphertext)
    {
      var messageKey := Kdf();
      r := Decryptor.Decrypt(prims, messageKey, nonce, ciphertext);
    }
  }

  /**
   * One message between two ratchet objects holding the same chain key: the
   * sender's `encrypt` and the receiver's `decrypt` each step once, the
   * receiver recovers the plaintext, and the two stay in step.
   */
  method SendReceive(sender: SymmetricRatchet, receiver: SymmetricRatchet, plaintext: Bytes, nonce: Nonce)
    returns (received: Result<Bytes, CodecError>)
    requires sender != receiver
    requires sender.Valid() && receiver.Valid()
    requires CodecAxioms(sender.prims) && sender.prims == receiver.prims
    requires sender.chainKey == receiver.chainKey
    modifies sender, receiver
    ensures sender.Valid() && receiver.Valid()
    ensures received == Ok(plaintext)
    ensures sender.chainKey == receiver.chainKey == sender.prims.blake2b32(old(sender.chainKey))
  {
    var envelope := sender.Encrypt(plaintext, nonce);
    Decryptor.RoundTrip(sender.prims, sender.chainKey, plaintext, nonce);
    received := receiver.Decrypt(envelope.nonce, envelope.ciphertext);
  }

  /** Two ratchets seeded with the same root and stepped equally often hold the same chain key. */
  lemma RatchetsAgree(a: SymmetricRatchet, b: SymmetricRatchet)
    requires a.Valid() && b.Valid()
    requires a.prims.blake2b32 == b.prims.blake2b32
    requires a.rootKey == b.rootKey && a.steps == b.steps
    ensures a.chainKey == b.chainKey
  {
  }
}
