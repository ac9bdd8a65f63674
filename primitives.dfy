/** The cryptographic primitives that the protocol takes from foreign
    libraries: SHA-256 (FIPS 180-4), HMAC-SHA-256 (RFC 2104), the AES-256
    block cipher (FIPS 197) in both directions, the P-256 curve equation and
    P-256 scalar multiplication. None of them is implemented here: a Suite is
    any collection of functions with the right shapes that obeys the laws
    the protocol relies on, and every operation of the protocol is stated for
    an arbitrary Suite. */
module Primitives {
  import opened Wrappers
  import opened ByteStrings
  import opened P256

  /** AES-256 takes exactly 32 key bytes. */
  type AesKey = Bytes32

  datatype Functions = Functions(
    sha256: Bytes -> Bytes32,
    hmacSha256: (Bytes, Bytes) -> Bytes32,
    encryptBlock: (AesKey, Block) -> Block,
    decryptBlock: (AesKey, Block) -> Block,
    onCurve: AffinePoint -> bool,
    multiply: (Scalar, AffinePoint) -> AffinePoint)

  /** A point of the curve: field-element coordinates satisfying the curve
      equation y^2 = x^3 - 3x + b (mod p). */
  predicate ValidPoint(f: Functions, q: AffinePoint) {
    InField(q) && f.onCurve(q)
  }

  /** The laws the protocol depends on: for every key the block cipher is a
      permutation of blocks with decryptBlock as its inverse; the base point
      lies on the curve; multiplying a curve point by a non-zero scalar gives
      a curve point (the curve has prime order n, so never the identity); and
      multiplying by two scalars does not depend on their order (the
      Diffie-Hellman property). */
  ghost predicate Laws(f: Functions) {
    && (forall k: AesKey, b: Block :: f.decryptBlock(k, f.encryptBlock(k, b)) == b)
    && (forall k: AesKey, b: Block :: f.encryptBlock(k, f.decryptBlock(k, b)) == b)
    && ValidPoint(f, Generator)
    && (forall d: Scalar, q: AffinePoint :: ValidPoint(f, q) ==> ValidPoint(f, f.multiply(d, q)))
    && (forall a: Scalar, b: Scalar, q: AffinePoint ::
          ValidPoint(f, q) ==> f.multiply(a, f.multiply(b, q)) == f.multiply(b, f.multiply(a, q)))
  }

  type Suite = f: Functions | Laws(f)
    witness Functions(
      _ => Zeros(32),
      (_, _) => Zeros(32),
      (_, b) => b,
      (_, b) => b,
      _ => true,
      (_, q) => q)

  /** The public key belonging to a private scalar: d times the base point. */
  function PublicKeyOf(f: Suite, d: Scalar): (q: AffinePoint)
    ensures ValidPoint(f, q)
  {
    f.multiply(d, Generator)
  }

  /** SEC1 decoding of the uncompressed point with the given 32-byte
      big-endian coordinates: it fails unless both are field elements and the
      point lies on the curve. */
  function FromAffineCoordinates(f: Suite, x: Bytes32, y: Bytes32): (r: Option<AffinePoint>)
    ensures r.Some? <==> ValidPoint(f, AffinePoint(FromBigEndian(x), FromBigEndian(y)))
    ensures r.Some? ==> ValidPoint(f, r.value) && XBytes(r.value) == x && YBytes(r.value) == y
  {
    Encode32OfDecode(x);
    Encode32OfDecode(y);
    var q := AffinePoint(FromBigEndian(x), FromBigEndian(y));
    if ValidPoint(f, q) then Some(q) else None
  }
}
