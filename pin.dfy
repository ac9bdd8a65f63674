/** PIN/UV Auth Protocol One (section 6.5.6 of the CTAP 2.1 specification):
    key agreement with the authenticator, AES-256-CBC with an all-zero IV,
    truncated HMAC-SHA-256, and the PIN hash. Every operation is stated for an
    arbitrary Suite of primitives. */
module Pin {
  import opened Wrappers
  import opened ByteStrings
  import opened P256
  import opened Primitives
  import Cbc
  import Cose

  /** The protocol versions a CTAP2 authenticator can negotiate. */
  datatype Ctap2PinUvAuthProtocol = One | Two

  /** Of the CTAP status codes only the one this protocol reports is modelled. */
  datatype CtapError = Other

  /** Of the transport error kinds only the wrapped CTAP status is modelled. */
  datatype Error = Ctap(status: CtapError)

  /** The single error every failure path of the protocol returns. */
  const Failure: Error := Ctap(Other)

  type PinResult<T> = Result<T, Error>

  /** The all-zero initialization vector used by both directions of the cipher. */
  const ZeroIv: Block := Zeros(BlockSize)

  /** The protocol object: an ephemeral key pair fixed at creation. */
  datatype ProtocolOne = ProtocolOne(privateKey: Scalar, publicKey: AffinePoint)

  /** The public key is the one that belongs to the private scalar. */
  ghost predicate Valid(f: Suite, e: ProtocolOne) {
    e.publicKey == PublicKeyOf(f, e.privateKey)
  }

  /** Creates the protocol object from the private scalar that the source
      draws from the operating system's random generator. */
  function New(f: Suite, d: Scalar): (e: ProtocolOne)
    ensures Valid(f, e) && e.privateKey == d
  {
    ProtocolOne(d, PublicKeyOf(f, d))
  }

  function Version(e: ProtocolOne): (v: Ctap2PinUvAuthProtocol)
    ensures v == One
  {
    One
  }

  /** kdf(Z): the shared secret is SHA-256 of the raw x coordinate, no HKDF. */
  function Kdf(f: Suite, z: Bytes): (secret: Bytes)
    ensures |secret| == 32
  {
    f.sha256(z)
  }

  /** Holds exactly when ecdh accepts the peer key: it is a key-agreement
      key and its coordinates name a point of the curve. */
  predicate AcceptedPeer(f: Suite, peer: Cose.PublicKey) {
    peer.EcdhEsHkdf256Key? && ValidPoint(f, AffinePoint(FromBigEndian(peer.x), FromBigEndian(peer.y)))
  }

  /** ecdh(peerCoseKey): validate the peer key, multiply its point by the
      private scalar and derive the shared secret from the x coordinate. */
  function Ecdh(f: Suite, e: ProtocolOne, peer: Cose.PublicKey): (r: PinResult<Bytes>)
    ensures r.Ok? <==> AcceptedPeer(f, peer)
    ensures r.Err? ==> r.error == Failure
    ensures r.Ok? ==>
      var q := AffinePoint(FromBigEndian(peer.x), FromBigEndian(peer.y));
      |r.value| == 32 && r.value == f.sha256(XBytes(f.multiply(e.privateKey, q)))
  {
    match peer
    case EcdhEsHkdf256Key(x, y) =>
      (match FromAffineCoordinates(f, x, y)
       case None => Err(Failure)
       case Some(q) =>
         var shared := f.multiply(e.privateKey, q);
         Ok(Kdf(f, XBytes(shared))))
    case _ => Err(Failure)
  }

  /** getPublicKey(): the engine's own public key as a COSE P-256 key with
      32-byte big-endian coordinates. */
  function GetPublicKey(e: ProtocolOne): (k: Cose.PublicKey)
    requires InField(e.publicKey)
    ensures k.P256Key?
    ensures FromBigEndian(k.x) == e.publicKey.x && FromBigEndian(k.y) == e.publicKey.y
  {
    Cose.P256Key(XBytes(e.publicKey), YBytes(e.publicKey))
  }

  /** encapsulate(peerCoseKey): the key to send back and the shared secret. */
  function Encapsulate(f: Suite, e: ProtocolOne, peer: Cose.PublicKey): (r: PinResult<(Cose.PublicKey, Bytes)>)
    requires InField(e.publicKey)
    ensures r.Ok? <==> AcceptedPeer(f, peer)
    ensures r.Err? ==> r.error == Failure
    ensures r.Ok? ==> r.value.0.P256Key?
    ensures r.Ok? ==>
      FromBigEndian(r.value.0.x) == e.publicKey.x && FromBigEndian(r.value.0.y) == e.publicKey.y
    ensures r.Ok? ==> |r.value.1| == 32 && Ecdh(f, e, peer) == Ok(r.value.1)
  {
    match Ecdh(f, e, peer)
    case Err(err) => Err(err)
    case Ok(sharedSecret) => Ok((GetPublicKey(e), sharedSecret))
  }

  /** AES-256-CBC encryption with the all-zero IV and no padding. A
      block-misaligned plaintext under a valid key makes the cipher library
      panic, so callers must not pass one. */
  function Encrypt(f: Suite, key: Bytes, plaintext: Bytes): (r: PinResult<Bytes>)
    requires |key| == 32 ==> BlockAligned(plaintext)
    ensures r.Ok? <==> |key| == 32
    ensures r.Err? ==> r.error == Failure
    ensures r.Ok? ==> |r.value| == |plaintext| && r.value == Cbc.Encrypt(f, key, ZeroIv, plaintext)
  {
    if |key| != 32 then Err(Failure)
    else Ok(Cbc.Encrypt(f, key, ZeroIv, plaintext))
  }

  /** The cipher library's no-padding decryption: it refuses a buffer that is
      not a whole number of blocks, and removing no padding never fails. */
  function DecryptNoPadding(f: Suite, key: AesKey, ciphertext: Bytes): (r: Option<Bytes>)
    ensures r.Some? <==> BlockAligned(ciphertext)
  {
    if !BlockAligned(ciphertext) then None
    else Some(Cbc.Decrypt(f, key, ZeroIv, ciphertext))
  }

  /** AES-256-CBC decryption with the all-zero IV: the length check comes
      first, then the key check. */
  function Decrypt(f: Suite, key: Bytes, ciphertext: Bytes): (r: PinResult<Bytes>)
    ensures !BlockAligned(ciphertext) ==> r == Err(Failure)
    ensures r.Ok? <==> BlockAligned(ciphertext) && |key| == 32
    ensures r.Err? ==> r.error == Failure
    ensures r.Ok? ==> |r.value| == |ciphertext| && r.value == Cbc.Decrypt(f, key, ZeroIv, ciphertext)
  {
    if !BlockAligned(ciphertext) then Err(Failure)
    else if |key| != 32 then Err(Failure)
    else
      match DecryptNoPadding(f, key, ciphertext)
      case None => Err(Failure)
      case Some(plaintext) => Ok(plaintext)
  }

  /** HMAC-SHA-256; every key length is accepted. */
  function HmacSha256(f: Suite, key: Bytes, message: Bytes): (mac: Bytes)
    ensures |mac| == 32
  {
    f.hmacSha256(key, message)
  }

  /** authenticate(key, message): the first 16 bytes of HMAC-SHA-256. */
  function Authenticate(f: Suite, key: Bytes, message: Bytes): (tag: Bytes)
    ensures |tag| == 16 && tag <= HmacSha256(f, key, message)
  {
    HmacSha256(f, key, message)[..16]
  }

  /** pin_hash(pin): LEFT(SHA-256(pin), 16). */
  function PinHash(f: Suite, pin: Bytes): (h: Bytes)
    ensures |h| == 16 && h <= f.sha256(pin)
  {
    f.sha256(pin)[..16]
  }

  // ----- Properties -----

  /** Decrypting what encrypt produced under the same 32-byte key gives back
      the block-aligned plaintext. */
  lemma DecryptEncrypt(f: Suite, key: Bytes, plaintext: Bytes)
    requires |key| == 32 && BlockAligned(plaintext)
    ensures Encrypt(f, key, plaintext).Ok?
    ensures Decrypt(f, key, Encrypt(f, key, plaintext).value) == Ok(plaintext)
  {
    Cbc.DecryptEncrypt(f, key, ZeroIv, plaintext);
  }

  /** Encrypting what decrypt produced gives back the ciphertext: without
      padding the two are mutually inverse bijections on aligned buffers. */
  lemma EncryptDecrypt(f: Suite, key: Bytes, ciphertext: Bytes)
    requires |key| == 32 && BlockAligned(ciphertext)
    ensures Decrypt(f, key, ciphertext).Ok?
    ensures Encrypt(f, key, Decrypt(f, key, ciphertext).value) == Ok(ciphertext)
  {
    Cbc.EncryptDecrypt(f, key, ZeroIv, ciphertext);
  }

  /** With the all-zero IV the first ciphertext block is the raw block cipher
      applied to the first plaintext block, and each later block is chained
      from the one before it. */
  lemma EncryptBlocks(f: Suite, key: AesKey, plaintext: Bytes, j: nat)
    requires BlockAligned(plaintext) && j < |plaintext| / BlockSize
    ensures Encrypt(f, key, plaintext).Ok?
    ensures var c := Encrypt(f, key, plaintext).value;
      BlockAligned(c) &&
      Cbc.BlockAt(c, j) == f.encryptBlock(key,
        if j == 0 then Cbc.BlockAt(plaintext, 0)
        else Xor(Cbc.BlockAt(plaintext, j), Cbc.BlockAt(c, j - 1)))
  {
    Cbc.EncryptChains(f, key, ZeroIv, plaintext, j);
    if j == 0 {
      XorZeros(Cbc.BlockAt(plaintext, 0));
    }
  }

  /** Each plaintext block is the block decryption of its ciphertext block,
      chained with the previous ciphertext block (nothing for the first). */
  lemma DecryptBlocks(f: Suite, key: AesKey, ciphertext: Bytes, j: nat)
    requires BlockAligned(ciphertext) && j < |ciphertext| / BlockSize
    ensures Decrypt(f, key, ciphertext).Ok?
    ensures var p := Decrypt(f, key, ciphertext).value;
      BlockAligned(p) &&
      Cbc.BlockAt(p, j) ==
        if j == 0 then f.decryptBlock(key, Cbc.BlockAt(ciphertext, 0))
        else Xor(f.decryptBlock(key, Cbc.BlockAt(ciphertext, j)), Cbc.BlockAt(ciphertext, j - 1))
  {
    Cbc.DecryptChains(f, key, ZeroIv, ciphertext, j);
    if j == 0 {
      XorZeros(f.decryptBlock(key, Cbc.BlockAt(ciphertext, 0)));
    }
  }

  /** The key that encapsulate sends, read back as a key-agreement key, is
      accepted and names the engine's own public point. */
  lemma SentKeyIsAccepted(f: Suite, e: ProtocolOne)
    requires Valid(f, e)
    ensures var k := GetPublicKey(e);
      FromAffineCoordinates(f, k.x, k.y) == Some(e.publicKey)
  {
  }

  /** Key agreement: when the platform encapsulates against the authenticator's
      key and the authenticator runs ecdh on the key it gets back, both hold
      the same shared secret. */
  lemma SharedSecretAgrees(f: Suite, platform: ProtocolOne, authenticator: ProtocolOne)
    requires Valid(f, platform) && Valid(f, authenticator)
    ensures var a := GetPublicKey(authenticator);
      var sent := Encapsulate(f, platform, Cose.EcdhEsHkdf256Key(a.x, a.y));
      sent.Ok? &&
      Ecdh(f, authenticator, Cose.EcdhEsHkdf256Key(sent.value.0.x, sent.value.0.y)) == Ok(sent.value.1)
  {
  }
}
