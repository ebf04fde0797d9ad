# QGP protocol layer in Dafny

A model of the protocol layer of QGP, a hybrid (X25519 + ML-KEM-512) key
agreement with a per-message symmetric ratchet and a compressed, authenticated
message envelope. It covers the following parts:

- **Hybrid handshake** (`handshake.dfy`). `Initiate` and `Respond` each hash the
  X25519 secret followed by the ML-KEM secret with BLAKE2b-256. Lemma
  `Agreement` proves that the responder derives the initiator's key. The proof
  uses only ECDH symmetry and KEM correctness.
- **Envelope codec** (`encryptor.dfy`, `decryptor.dfy`). Encryption compresses
  with zstd, then seals with SecretBox under a nonce that is returned beside
  the ciphertext. Decryption prepends the nonce and lets SecretBox split it
  off again. It then verifies, opens and decompresses. The round trip is
  proved, including the empty plaintext.
- **Symmetric ratchet** (`ratchet.dfy`). Class `SymmetricRatchet` holds the
  chain key, which every `Encrypt` and `Decrypt` replaces by its hash. A
  ghost step count and `Valid()` tie the chain key to H^n(root). A failed
  decryption still takes its step. Method `SendReceive` shows, on two ratchet
  objects holding the same chain key, that the receiver recovers the sender's
  message and that both stay in step. Lemma `Lockstep` proves the same for a
  whole sequence of messages, on the functions `SealAll` and `OpenAll`. They
  describe what the objects do over several successful calls; `OpenAll` stops
  at the first failure, while an object keeps stepping.
- **Hex wire encoding** (`utils.dfy`). `bytes.hex()` and `bytes.fromhex()`,
  with round trips in both directions and the failure cases.
- **Key labels** (`keys.dfy`). The `{label}_ecc.sk` / `_ecc.pk` / `_pq.sk` /
  `_pq.pk` naming scheme, and `list_labels` over a directory listing given as
  a sequence of file names. The listing yields exactly the labels whose
  `_ecc.sk` file is present, once each, in Python's string order.

`primitives.dfy` holds the byte types, `Option`/`Result` and the primitives.
BLAKE2b-256, zstd compress/decompress, SecretBox seal/open, X25519 `Box`,
ML-KEM encapsulate/decapsulate and the public-key derivations are all
function values in one `Primitives` record. Nothing about them is known
except two predicates, which the lemmas that need them take as
preconditions:

- `CodecAxioms`: decompression undoes compression, opening undoes sealing,
  and a sealed box is 16 bytes longer than its input.
- `AgreementAxioms`: ECDH symmetry and KEM correctness.

The random nonce and the encapsulation coins are parameters. With them as
inputs, every operation is a Dafny function of its arguments, so the same
inputs always give the same result.

Library exceptions become error values:

- A SecretBox key that is not 32 bytes gives `InvalidKeyMaterial`.
- `nonce ++ ciphertext` shorter than 24 bytes gives `InvalidNonce`.
- A failed Poly1305 check gives `AuthenticationFailure`.
- A zstd error gives `DecompressionFailure`.
- ECDH, encapsulation and decapsulation failures each give their own error.

The model follows the code, including where the docstrings say otherwise:

- Decompression has no size bound (`QPG/qgp/decrypt.py:28`, `QPG/qgp/ratchet.py:57`).
- The ratchet stores the root key without checking the 32 bytes its docstring asks for (`QPG/qgp/ratchet.py:20-22`).
- `list_labels` does not require the `_pq` files, although its docstring says it does (`QPG/qgp/keys.py:56-61`).

## Model

| member | source | states |
|---|---|---|
| Encryptor.Encrypt | QPG/qgp/encrypt.py:12-36 | succeeds exactly when the key is 32 bytes (otherwise InvalidKeyMaterial); returns the given nonce and the seal of the compressed plaintext under that key and nonce, nonce not embedded |
| Encryptor.BoxEncrypt | QPG/qgp/encrypt.py:28-30 | SecretBox's output starts with the 24-byte nonce it was given |
| Encryptor.CiphertextExcludesNonce | QPG/qgp/encrypt.py:28-36 | the returned nonce followed by the returned ciphertext is exactly the box's output, so the ciphertext holds no nonce bytes and is the compressed plaintext plus the 16-byte tag |
| Decryptor.OpenCombined | QPG/qgp/decrypt.py:22-25 | the box takes the first 24 bytes of nonce ++ ciphertext as nonce and opens the rest; fails with InvalidNonce when shorter, AuthenticationFailure exactly when opening fails |
| Decryptor.Decrypt | QPG/qgp/decrypt.py:11-29 | bad key gives InvalidKeyMaterial; an open failure is returned before any decompression; success exactly when the box opens and the content decompresses, and the result is that decompression |
| Decryptor.FullNonceIsUsedAsGiven | QPG/qgp/decrypt.py:22-25 | with a 24-byte nonce the box is opened under exactly that nonce and ciphertext |
| Decryptor.ShortNonceBorrowsCiphertext | QPG/qgp/decrypt.py:22-25 | a nonce shorter than 24 bytes is completed from the front of the ciphertext, since its length is never checked: the result is exactly the opening of the remaining bytes under that borrowed nonce, AuthenticationFailure when it does not open |
| Decryptor.RoundTrip | QPG/qgp/decrypt.py:11-29 | decrypting any successful encryption's nonce and ciphertext under the same key returns the plaintext, empty included |
| Handshake.Combine | QPG/qgp/handshake.py:31-32 | the derived shared key is 32 bytes (BLAKE2b with a 32-byte digest); this is the guarantee of its `Key` result type |
| Handshake.Initiate | QPG/qgp/handshake.py:13-34 | ECDH failure, then encapsulation failure, abort in that order; on success the KEM ciphertext is returned unchanged and the key is BLAKE2b-256 of ECC secret ++ PQ secret |
| Handshake.Respond | QPG/qgp/handshake.py:37-56 | ECDH then decapsulation failures abort; on success the key is BLAKE2b-256 of ECC secret ++ decapsulated secret, same order |
| Handshake.Agreement | QPG/qgp/handshake.py:13-56 | for matching key pairs, a successful initiation's ciphertext makes respond return exactly the initiator's shared key |
| Handshake.EcdhFailsOnBothSides | QPG/qgp/handshake.py:24-47 | for matching key pairs the initiator's ECDH fails exactly when the responder's does |
| Ratchet.Chain | QPG/qgp/ratchet.py:24-29 | H^n(root): the root itself after no step, a 32-byte key after at least one |
| Ratchet.ChainCompose | QPG/qgp/ratchet.py:24-29 | m steps followed by n steps are m + n steps |
| Ratchet.ChainFromNext | QPG/qgp/ratchet.py:24-29 | n steps from H(root) are n + 1 steps from root |
| Ratchet.SealAll | QPG/qgp/ratchet.py:31-44 | a ratchet emits one envelope per plaintext, stepping once for each |
| Ratchet.OpenAll | QPG/qgp/ratchet.py:46-58 | successive decryptions, stepping once for each, yield one plaintext per envelope |
| Ratchet.SealAllUsesChain | QPG/qgp/ratchet.py:39-44 | the i-th envelope is sealed under the (i+1)-th chain key H^(i+1)(root), a 32-byte key |
| Ratchet.OpenAllUsesChain | QPG/qgp/ratchet.py:53-57 | when a sequence decrypts, its i-th plaintext is the decryption of the i-th envelope under the (i+1)-th chain key H^(i+1)(root) |
| Ratchet.Lockstep | QPG/qgp/ratchet.py:31-58 | a receiver seeded like the sender and decrypting in order recovers every plaintext |
| Ratchet.SymmetricRatchet.constructor | QPG/qgp/ratchet.py:18-22 | the root key becomes the chain key unchanged, no step taken |
| Ratchet.SymmetricRatchet.Kdf | QPG/qgp/ratchet.py:24-29 | chain key replaced by its hash, one step taken, and the message key returned is the new chain key |
| Ratchet.SymmetricRatchet.Encrypt | QPG/qgp/ratchet.py:31-44 | exactly one step, then the envelope holds the given nonce and the seal of the compressed plaintext under the new chain key |
| Ratchet.SymmetricRatchet.Decrypt | QPG/qgp/ratchet.py:46-58 | exactly one step whatever the outcome, then the codec's decryption under the new chain key |
| Ratchet.SendReceive | QPG/qgp/ratchet.py:31-58 | a sender and a distinct receiver holding the same chain key: after one encrypt and one decrypt the receiver has the plaintext, and both hold the same next chain key |
| Ratchet.RatchetsAgree | QPG/qgp/ratchet.py:18-29 | two ratchets with the same root and the same number of steps hold the same chain key |
| Utils.DigitValue | QPG/qgp/utils.py:62-64 | hex digits of either case have a value below 16; no other character does |
| Utils.SerializeBytes | QPG/qgp/utils.py:57-59 | output is twice as long as the input and made only of lowercase hex digits |
| Utils.SerializeAt | QPG/qgp/utils.py:57-59 | byte i becomes characters 2i and 2i+1, high nibble first |
| Utils.DeserializeBytes | QPG/qgp/utils.py:62-64 | a decoded string yields half as many bytes as it has non-whitespace characters |
| Utils.DeserializeSerialize | QPG/qgp/utils.py:57-64 | fromhex(hex(b)) == b for every byte string, empty included |
| Utils.SerializeDeserialize | QPG/qgp/utils.py:57-64 | hex(fromhex(s)) is s with whitespace removed and digits lower-cased, whenever fromhex accepts s |
| Utils.EvenHexStringRoundTrip | QPG/qgp/utils.py:57-64 | an even-length string of hex digits decodes to half as many bytes and re-encodes to its lower-case form |
| Utils.EvenHexStringDecodes | QPG/qgp/utils.py:62-64 | an even-length string of hex digits is accepted |
| Utils.NonHexCharacterFails | QPG/qgp/utils.py:62-64 | a character that is neither a hex digit nor ASCII whitespace makes decoding fail |
| Utils.OddDigitCountFails | QPG/qgp/utils.py:62-64 | an odd number of non-whitespace characters makes decoding fail |
| Keys.KeyFileNames | QPG/qgp/keys.py:40-50 | generate_keypair writes four files per label |
| Keys.OnlyEccSecretFileMatches | QPG/qgp/keys.py:40-61 | of the four files, only `{label}_ecc.sk` ends in `_ecc.sk` |
| Keys.EndsWithConcat | QPG/qgp/keys.py:61 | a name ends with the suffix exactly when it is some string followed by the suffix |
| Keys.LastOccurrenceFrom | QPG/qgp/keys.py:62 | the last position at or below i where the separator occurs, or none |
| Keys.LastOccurrence | QPG/qgp/keys.py:62 | the last position where the separator occurs, as rsplit cuts, or none |
| Keys.RSplitHead | QPG/qgp/keys.py:62 | the head is a prefix of the name; when shorter than the name the separator occurs right after it and at no later position, and when it is the whole name the separator does not occur |
| Keys.SuffixIsLastOccurrence | QPG/qgp/keys.py:61-62 | for a name ending in the suffix, rsplit's head is the name without that suffix |
| Keys.LabelSetMembership | QPG/qgp/keys.py:58-63 | a label is listed if and only if `{label}_ecc.sk` is in the listing |
| Keys.GeneratedFilesYieldLabel | QPG/qgp/keys.py:40-63 | for a label without '/' or NUL, the files written for it make exactly that label appear |
| Keys.EccSecretAloneYieldsLabel | QPG/qgp/keys.py:56-61 | a lone `{label}_ecc.sk` yields the label; the `_pq` files are not required |
| Keys.LessIrreflexive | QPG/qgp/keys.py:63 | no string sorts before itself |
| Keys.LessTransitive | QPG/qgp/keys.py:63 | the string order used by sorted is transitive |
| Keys.LessTotal | QPG/qgp/keys.py:63 | any two distinct strings are ordered one way or the other |
| Keys.Insert | QPG/qgp/keys.py:63 | inserting a new label into a strictly sorted list keeps it strictly sorted and adds exactly that label |
| Keys.StrictlySortedUnique | QPG/qgp/keys.py:63 | two strictly sorted lists with the same elements are equal, so sorted has one possible result |
| Keys.SortLabels | QPG/qgp/keys.py:63 | `sorted` of a set: strictly ascending, no duplicates, and holding exactly the set's elements |
| Keys.ListLabels | QPG/qgp/keys.py:54-63 | strictly ascending (no duplicates), and holds exactly the labels L with `L_ecc.sk` in the listing |

## Left out

- Primitive internals: BLAKE2b (RFC 7693), X25519 (section 6.1 of RFC 7748) with NaCl's precomputation, XSalsa20-Poly1305, Zstandard (RFC 8878) and ML-KEM-512 (FIPS 203) are opaque. Only the axioms above are assumed. ML-KEM's negligible decapsulation-failure probability is treated as zero.
- Properties that are only probabilistic are not stated. These are desynchronisation detection, tamper sensitivity and nonce uniqueness: that a wrong key or a flipped bit makes opening fail holds only with overwhelming probability. The random nonce draw itself is a parameter.
- Key objects: PyNaCl's `PrivateKey`/`PublicKey` and the PQ key wrappers are plain byte strings. Any failure of `Box`, encapsulation or decapsulation is one error value per primitive.
- `QPG/qgp/postquantum.py` is not part of this model. It is a thin wrapper over kyber-py. Its only relevant fact is that `encapsulate` returns (ciphertext, shared secret), swapping the library's order, and `encaps` here returns that order.
- File and configuration I/O are not part of this model. This covers `generate_keypair`'s key generation and file writes (only its naming scheme is modelled), the `load_*` readers, directory creation, `load_config`, `save_config` and `setup_logging`. `os.listdir` is the `files` parameter of `ListLabels`.
- `QPG/qgp/cli.py`, `QPG/qgp/revocation.py`, `QPG/tests/interacrive_qpg_demo.py`, `QPG/setup.py` and `QPG/qgp/__init__.py` are not part of this model. They are command-line plumbing, a networked pub/sub client with a listener thread, an interactive demo, and packaging.
- Handshake.Combine: its contract gives only the 32-byte length. Stating that the key is BLAKE2b-256 of the ECC secret followed by the PQ secret would repeat its body; that formula, ECC secret first, is stated by the contracts of `Initiate` and `Respond`.
- GeneratedFilesYieldLabel: holds only for labels without '/' or NUL. `os.path.join` (`QPG/qgp/keys.py:40`) puts a label with '/' in another directory, or elsewhere entirely when it starts with '/', and `open` raises for a NUL, so such a label's `_ecc.sk` file is not an entry of the listing. The model does not describe where those files go.
- Concurrency, memory zeroisation and timing side channels cannot be expressed here.
- File names holding lone surrogates, which `os.listdir` produces for undecodable bytes, cannot be represented: a Dafny `char` is a Unicode scalar value. Other names compare by code point, as in Python.
