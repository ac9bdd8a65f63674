/** The NIST P-256 curve as far as the protocol needs it: the domain
    parameters of SEC 2 / FIPS 186-4, affine points, their 32-byte
    big-endian coordinates, and private scalars. Curve membership and scalar
    multiplication are foreign primitives (module Primitives). */
module P256 {
  import opened ByteStrings

  /** The field prime p = 2^256 - 2^224 + 2^192 + 2^96 - 1. */
  const P: nat := 0xffffffff_00000001_00000000_00000000_00000000_ffffffff_ffffffff_ffffffff
  /** The order n of the base point. */
  const N: nat := 0xffffffff_00000000_ffffffff_ffffffff_bce6faad_a7179e84_f3b9cac2_fc632551
  const GX: nat := 0x6b17d1f2_e12c4247_f8bce6e5_63a440f2_77037d81_2deb33a0_f4a13945_d898c296
  const GY: nat := 0x4fe342e2_fe1a7f9b_8ee7eb4a_7c0f9e16_2bce3357_6b315ece_cbb64068_37bf51f5

  /** A pair of affine coordinates, not yet known to lie on the curve. The
      identity has no affine coordinates and is not an AffinePoint. */
  datatype AffinePoint = AffinePoint(x: nat, y: nat)

  const Generator: AffinePoint := AffinePoint(GX, GY)

  /** Both coordinates are canonical field elements, below p. */
  predicate InField(q: AffinePoint) {
    q.x < P && q.y < P
  }

  /** A non-zero private scalar, as the ECDH ephemeral secret is. */
  type Scalar = d: nat | 1 <= d < N witness 1

  /** The 32-byte big-endian x coordinate of a point. */
  function XBytes(q: AffinePoint): (r: Bytes32)
    requires InField(q)
    ensures FromBigEndian(r) == q.x
  {
    Encode32(q.x)
  }

  /** The 32-byte big-endian y coordinate of a point. */
  function YBytes(q: AffinePoint): (r: Bytes32)
    requires InField(q)
    ensures FromBigEndian(r) == q.y
  {
    Encode32(q.y)
  }
}
