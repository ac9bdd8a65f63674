/** Single bytes as 8-bit vectors. */
module Octets {
  type byte = bv8

  lemma ByteOfValue(r: nat)
    requires r < 256
    ensures (r as byte) as nat == r
  {
  }
}

/** Byte strings, fixed-size byte arrays and the big-endian integer encoding
    that SEC1 uses for P-256 field elements. */
module ByteStrings {
  import opened Octets

  type Bytes = seq<byte>

  /** A 32-byte value: a SHA-256 digest, an HMAC-SHA-256 tag, an AES-256 key,
      one coordinate of a P-256 point. */
  type Bytes32 = s: Bytes | |s| == 32 witness Zeros(32)

  /** One AES block. */
  type Block = s: Bytes | |s| == BlockSize witness Zeros(BlockSize)

  const BlockSize: nat := 16

  function Zeros(n: nat): (z: Bytes)
    ensures |z| == n && forall i :: 0 <= i < n ==> z[i] == 0
  {
    seq(n, _ => 0)
  }

  predicate BlockAligned(s: Bytes) {
    |s| % BlockSize == 0
  }

  /** Byte-wise exclusive or of two blocks. */
  function Xor(a: Block, b: Block): Block {
    seq(BlockSize, i requires 0 <= i < BlockSize => a[i] ^ b[i])
  }

  lemma XorCancel(a: Block, b: Block)
    ensures Xor(Xor(a, b), b) == a
  {
  }

  /** XOR with the all-zero block changes nothing. */
  lemma XorZeros(a: Block)
    ensures Xor(a, Zeros(BlockSize)) == a
  {
  }

  function Pow256(n: nat): (r: nat)
    ensures r > 0
  {
    if n == 0 then 1 else 256 * Pow256(n - 1)
  }

  /** 2^256, the bound on values a 32-byte big-endian string can hold. */
  const TwoTo256: nat := 0x1_0000000000000000_0000000000000000_0000000000000000_0000000000000000

  lemma {:induction false} Pow256Add(a: nat, b: nat)
    ensures Pow256(a + b) == Pow256(a) * Pow256(b)
  {
    if a > 0 {
      Pow256Add(a - 1, b);
      assert Pow256(a + b) == 256 * Pow256(a - 1 + b);
    }
  }

  lemma Pow256Of32()
    ensures Pow256(32) == TwoTo256
  {
    assert Pow256(2) == 0x1_0000;
    Pow256Add(2, 2);
    Pow256Add(4, 4);
    Pow256Add(8, 8);
    Pow256Add(16, 16);
  }

  /** The unsigned integer whose big-endian encoding is s. */
  function FromBigEndian(s: Bytes): nat {
    if |s| == 0 then 0 else FromBigEndian(s[..|s| - 1]) * 256 + s[|s| - 1] as nat
  }

  /** The n-byte big-endian encoding of v; v must fit in n bytes. */
  function ToBigEndian(v: nat, n: nat): (s: Bytes)
    requires v < Pow256(n)
    ensures |s| == n
  {
    if n == 0 then [] else ToBigEndian(v / 256, n - 1) + [(v % 256) as byte]
  }

  lemma {:induction false} FromBigEndianBound(s: Bytes)
    ensures FromBigEndian(s) < Pow256(|s|)
  {
    if |s| > 0 {
      var init := s[..|s| - 1];
      FromBigEndianBound(init);
      assert FromBigEndian(init) + 1 <= Pow256(|init|);
      assert (FromBigEndian(init) + 1) * 256 <= Pow256(|init|) * 256;
    }
  }

  lemma DivBound(v: nat, m: nat)
    requires v < 256 * m
    ensures v / 256 < m
  {
  }

  lemma {:induction false} FromToBigEndian(v: nat, n: nat)
    requires v < Pow256(n)
    ensures FromBigEndian(ToBigEndian(v, n)) == v
  {
    if n > 0 {
      var q, r := v / 256, v % 256;
      assert v == q * 256 + r;
      assert q < Pow256(n - 1) by {
        DivBound(v, Pow256(n - 1));
      }
      FromToBigEndian(q, n - 1);
      var s, init := ToBigEndian(v, n), ToBigEndian(q, n - 1);
      assert s == init + [r as byte];
      assert s[..|s| - 1] == init;
      ByteOfValue(r);
      assert FromBigEndian(s) == FromBigEndian(init) * 256 + r;
    }
  }

  lemma {:induction false} ToFromBigEndian(s: Bytes)
    ensures FromBigEndian(s) < Pow256(|s|)
    ensures ToBigEndian(FromBigEndian(s), |s|) == s
  {
    FromBigEndianBound(s);
    if |s| > 0 {
      var init := s[..|s| - 1];
      var v := FromBigEndian(s);
      assert v / 256 == FromBigEndian(init);
      assert v % 256 == s[|s| - 1] as nat;
      ToFromBigEndian(init);
      assert s == init + [s[|s| - 1]];
    }
  }

  /** SEC1 field-element encoding: a value below 2^256 as 32 big-endian bytes. */
  function Encode32(v: nat): (s: Bytes32)
    requires v < TwoTo256
    ensures FromBigEndian(s) == v
  {
    Pow256Of32();
    FromToBigEndian(v, 32);
    ToBigEndian(v, 32)
  }

  /** Every 32-byte string is the encoding of the value it decodes to. */
  lemma Encode32OfDecode(s: Bytes32)
    ensures FromBigEndian(s) < TwoTo256
    ensures Encode32(FromBigEndian(s)) == s
  {
    Pow256Of32();
    ToFromBigEndian(s);
  }
}
