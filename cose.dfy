/** The already-parsed COSE public keys the protocol consumes and produces.
    Coordinates are 32-byte big-endian field elements. */
module Cose {
  import opened ByteStrings

  datatype PublicKey =
    | P256Key(x: Bytes32, y: Bytes32)          // an ES256 signing key; what the protocol sends back
    | EcdhEsHkdf256Key(x: Bytes32, y: Bytes32) // a key-agreement key; what the authenticator sends
    | OtherKey                                 // any other key type (Ed25519, ...)
}
