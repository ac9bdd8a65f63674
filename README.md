# PIN/UV Auth Protocol One

A Dafny model of `PinUvAuthProtocolOne` and the free functions `pin_hash` and
`hmac_sha256` of libwebauthn. This is PIN/UV Auth Protocol One from section 6.5.6 of the
FIDO CTAP 2.1 specification. A platform uses it to agree on a shared secret with an
authenticator. It then uses that secret to encrypt, decrypt and authenticate the PIN
hash and the pinUvAuthToken.

- `wrappers.dfy` (`Wrappers`): `Option` and `Result`.
- `bytes.dfy` (`Octets`, `ByteStrings`): `Octets` defines a byte as an 8-bit vector,
  with the fact that converting a value below 256 to a byte and back loses nothing.
  `ByteStrings` holds byte strings, 16-byte blocks, XOR, and the big-endian encoding of
  field elements, with both round trips proved.
- `p256.dfy` (`P256`): the P-256 domain parameters p, n and the base point, affine
  points, field-element bounds, private scalars in [1, n), and the 32-byte big-endian
  coordinate encoding.
- `primitives.dfy` (`Primitives`): the foreign primitives are SHA-256, HMAC-SHA-256, the
  AES-256 block cipher in both directions, the P-256 curve equation, and P-256 scalar
  multiplication. They are the fields of a `Suite`, a record of functions. Its type holds
  only the laws the protocol relies on:
  - the block cipher is a permutation with decryptBlock as its inverse;
  - the base point is on the curve;
  - a non-zero scalar times a curve point is a curve point;
  - scalar multiplications by two scalars commute (the Diffie-Hellman property).

  SEC1 decoding of the peer's coordinates is modelled here too: both coordinates must be
  below p, and the point must satisfy the curve equation.

  The output lengths (32 bytes for digests and tags, 16 bytes for blocks) are part of
  the field types. Every protocol operation takes an arbitrary `Suite`.
- `cose.dfy` (`Cose`): the parsed COSE public keys, with an `EcdhEsHkdf256Key` variant,
  a `P256Key` variant and an `OtherKey` variant.
- `cbc.dfy` (`Cbc`): CBC chaining as in section 6.2 of NIST SP 800-38A, without padding,
  written out over the abstract block cipher.
- `pin.dfy` (`Pin`): the protocol object and its operations. There is one error value,
  `Ctap(Other)`, which every failure path returns.

The protocol object is an immutable datatype. In the source its two fields are set once in
`new`, and every method takes `&self`.

Every failure path returns `Error::Ctap(CtapError::Other)` (pin.rs:113, 122, 179, 198, 204,
208), so the model has that one error value. The unpad error at pin.rs:206-208 cannot happen.
With no padding, the cipher library rejects only misaligned buffers, and `decrypt` has
already rejected those at pin.rs:193. `Pin.Decrypt`'s contract shows this: it succeeds
exactly when the ciphertext is block-aligned and the key is 32 bytes.

## Model

| member | source | states |
|---|---|---|
| `Pin.New` | libwebauthn/src/pin.rs:98-105 | the protocol object keeps the given private scalar, and its public key is that scalar times the base point |
| `Pin.Version` | libwebauthn/src/pin.rs:157-159 | the protocol reports version One |
| `Pin.Kdf` | libwebauthn/src/pin.rs:133-138 | returns SHA-256 of its input; the contract states the 32-byte length |
| `Primitives.FromAffineCoordinates` | libwebauthn/src/pin.rs:115-123 | decoding succeeds exactly when the big-endian coordinates are below p and satisfy the curve equation; the decoded point is a curve point and re-encodes to the same bytes |
| `Primitives.PublicKeyOf` | libwebauthn/src/pin.rs:99-100 | the public key derived from a private scalar is a curve point |
| `P256.XBytes` | libwebauthn/src/pin.rs:142-145 | the 32-byte x coordinate decodes back to the point's x |
| `P256.YBytes` | libwebauthn/src/pin.rs:146-148 | the 32-byte y coordinate decodes back to the point's y |
| `ByteStrings.Encode32` | libwebauthn/src/pin.rs:142-148 | a value below 2^256 encodes to 32 bytes that decode back to it |
| `ByteStrings.Encode32OfDecode` | libwebauthn/src/pin.rs:115-120 | every 32-byte coordinate is the encoding of the value it decodes to |
| `ByteStrings.FromToBigEndian` | libwebauthn/src/pin.rs:142-148 | decoding an n-byte big-endian encoding gives back the value |
| `ByteStrings.ToFromBigEndian` | libwebauthn/src/pin.rs:115-120 | encoding a decoded byte string gives back the bytes |
| `Pin.Ecdh` | libwebauthn/src/pin.rs:107-131 | succeeds exactly for an `EcdhEsHkdf256Key` whose coordinates form a valid P-256 point, otherwise returns `Ctap(Other)`; on success the secret is the 32-byte SHA-256 of the x coordinate of the private scalar times the peer point |
| `Pin.GetPublicKey` | libwebauthn/src/pin.rs:140-153 | for a key pair whose coordinates are field elements, the result is a `P256Key` whose coordinates decode to the engine's own public point |
| `Pin.Encapsulate` | libwebauthn/src/pin.rs:162-171 | fails with `Ctap(Other)` exactly when ecdh rejects the peer key (wrong variant or off-curve point); on success returns a `P256Key` naming the engine's public point, whatever the peer, and the 32-byte secret ecdh derives |
| `Pin.SentKeyIsAccepted` | libwebauthn/src/pin.rs:140-153 | the key encapsulate sends back, read as a key-agreement key, is accepted and names the engine's public point |
| `Pin.SharedSecretAgrees` | libwebauthn/src/pin.rs:125-131 | when the platform encapsulates against the authenticator's key, the authenticator's ecdh on the returned key yields the same shared secret |
| `Pin.Encrypt` | libwebauthn/src/pin.rs:173-182 | succeeds exactly for a 32-byte key, otherwise returns `Ctap(Other)`; the ciphertext is CBC under the all-zero IV and exactly as long as the plaintext (no padding) |
| `Pin.DecryptNoPadding` | libwebauthn/src/pin.rs:206-209 | no-padding decryption fails exactly for a buffer that is not a whole number of blocks |
| `Pin.Decrypt` | libwebauthn/src/pin.rs:190-211 | a ciphertext whose length is not a multiple of 16 fails with `Ctap(Other)` whatever the key; otherwise succeeds exactly for a 32-byte key, with a plaintext as long as the ciphertext |
| `Pin.DecryptEncrypt` | libwebauthn/src/pin.rs:173-211 | for a 32-byte key and a block-aligned plaintext, decrypt of encrypt succeeds and gives back the plaintext |
| `Pin.EncryptDecrypt` | libwebauthn/src/pin.rs:173-211 | for a 32-byte key and a block-aligned ciphertext, encrypt of decrypt gives back the ciphertext |
| `Pin.EncryptBlocks` | libwebauthn/src/pin.rs:174-181 | the first ciphertext block is the block cipher applied to the first plaintext block (zero IV), and each later block is the cipher applied to the plaintext block XOR the previous ciphertext block |
| `Pin.DecryptBlocks` | libwebauthn/src/pin.rs:191-209 | each plaintext block is the block decryption of its ciphertext block, XOR the previous ciphertext block for every block but the first |
| `Pin.HmacSha256` | libwebauthn/src/pin.rs:222-226 | accepts a key of any length and returns a 32-byte MAC |
| `Pin.Authenticate` | libwebauthn/src/pin.rs:184-188 | never fails and returns the 16-byte prefix of HMAC-SHA-256 of key and message |
| `Pin.PinHash` | libwebauthn/src/pin.rs:214-220 | returns the 16-byte prefix of SHA-256 of the PIN, for every PIN including the empty one |
| `Cbc.Encrypt` | libwebauthn/src/pin.rs:181 | CBC encryption without padding keeps the length of a block-aligned plaintext |
| `Cbc.Decrypt` | libwebauthn/src/pin.rs:206 | CBC decryption without padding keeps the length of a block-aligned ciphertext |
| `Cbc.EncryptChains` | libwebauthn/src/pin.rs:181 | every ciphertext block is E_k(P_j XOR C_{j-1}), with the IV in place of C_{-1} |
| `Cbc.DecryptChains` | libwebauthn/src/pin.rs:206 | every plaintext block is D_k(C_j) XOR C_{j-1}, with the IV in place of C_{-1} |
| `Cbc.DecryptEncrypt` | libwebauthn/src/pin.rs:181 | CBC decryption under the same key and IV inverts CBC encryption |
| `Cbc.EncryptDecrypt` | libwebauthn/src/pin.rs:206 | CBC encryption under the same key and IV inverts CBC decryption |
| `Cbc.EncryptPrefix` | libwebauthn/src/pin.rs:181 | the ciphertext of a block-aligned prefix is the prefix of the ciphertext of the longer message |

## Left out

- SHA-256, HMAC-SHA-256, the AES-256 block cipher and P-256 scalar multiplication are not
  implemented. They are the functions of an arbitrary `Primitives.Suite`, constrained only by
  output length and the laws listed above. The curve equation is one of these primitives.
  The field-element bound (coordinates below p) is modelled concretely.
- The curve equation is abstract, so the model cannot show that a particular pair of
  coordinates, such as x = y = 0, is off the curve. It shows only that every pair failing
  the equation is rejected.
- Key generation in `new` uses the operating system's random generator. The model takes the
  private scalar as a parameter of `Pin.New`.
- `Pin.Encrypt`: a block-misaligned plaintext under a 32-byte key makes the cipher library
  panic. The model excludes exactly that case by a precondition. A misaligned plaintext under
  a wrong-size key still returns `Ctap(Other)`.
- The panics of `get_public_key` for an identity or compressed point are not modelled.
  `Pin.GetPublicKey` and `Pin.Encapsulate` require instead that the engine's public key has
  coordinates below p. Every engine built by `Pin.New` has such a key.
- COSE coordinates shorter than 32 bytes make the source panic when it converts them to
  fixed-size arrays. The model types every coordinate as exactly 32 bytes.
- The `PinUvAuthProtocol` trait has one implementation. The model has no dispatch layer over
  protocol versions; `Pin.Version` reports One.
- `PinProvider`, `StaticPinProvider` and `PinUvAuthToken` are left out. They are async PIN
  acquisition and a plain record with nothing to verify.
- Logging and `#[instrument]` are left out, because they are side effects only.
- Secret zeroing and constant-time comparison are left out. The source does not perform them,
  and timing cannot be expressed in the model.
- The transport error type's other variants and the other CTAP status codes are left out. This
  core produces only `Ctap(Other)`.
