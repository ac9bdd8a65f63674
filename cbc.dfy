/** Cipher block chaining over the AES-256 block cipher, as in section 6.2 of
    NIST SP 800-38A, without padding: C_j = E_k(P_j xor C_{j-1}) and
    P_j = D_k(C_j) xor C_{j-1}, where C_{-1} is the initialization vector. */
module Cbc {
  import opened ByteStrings
  import opened Primitives

  /** The j-th block of a block-aligned byte string. */
  function BlockAt(s: Bytes, j: nat): Block
    requires BlockAligned(s) && j < |s| / BlockSize
  {
    s[BlockSize * j .. BlockSize * j + BlockSize]
  }

  /** Block j of a string is block j - 1 of the string without its first block. */
  lemma BlockAtTail(s: Bytes, j: nat)
    requires BlockAligned(s) && 0 < j < |s| / BlockSize
    ensures BlockAligned(s[BlockSize..]) && BlockAt(s, j) == BlockAt(s[BlockSize..], j - 1)
  {
  }

  /** The block chained into block j: the IV for the first block, the
      previous ciphertext block otherwise. */
  function ChainedBlock(iv: Block, c: Bytes, j: nat): Block
    requires BlockAligned(c) && j <= |c| / BlockSize
  {
    if j == 0 then iv else BlockAt(c, j - 1)
  }

  function Encrypt(f: Suite, key: AesKey, iv: Block, p: Bytes): (c: Bytes)
    requires BlockAligned(p)
    ensures |c| == |p|
    decreases |p|
  {
    if |p| == 0 then []
    else
      var head := f.encryptBlock(key, Xor(p[..BlockSize], iv));
      head + Encrypt(f, key, head, p[BlockSize..])
  }

  function Decrypt(f: Suite, key: AesKey, iv: Block, c: Bytes): (p: Bytes)
    requires BlockAligned(c)
    ensures |p| == |c|
    decreases |c|
  {
    if |c| == 0 then []
    else
      var head := c[..BlockSize];
      Xor(f.decryptBlock(key, head), iv) + Decrypt(f, key, head, c[BlockSize..])
  }

  /** Every ciphertext block obeys the CBC encryption equation. */
  lemma {:induction false} EncryptChains(f: Suite, key: AesKey, iv: Block, p: Bytes, j: nat)
    requires BlockAligned(p) && j < |p| / BlockSize
    ensures BlockAligned(Encrypt(f, key, iv, p))
    ensures BlockAt(Encrypt(f, key, iv, p), j)
         == f.encryptBlock(key, Xor(BlockAt(p, j), ChainedBlock(iv, Encrypt(f, key, iv, p), j)))
    decreases j
  {
    var c := Encrypt(f, key, iv, p);
    var head := f.encryptBlock(key, Xor(p[..BlockSize], iv));
    var rest := p[BlockSize..];
    assert c == head + Encrypt(f, key, head, rest);
    if j > 0 {
      EncryptChains(f, key, head, rest, j - 1);
      var c' := Encrypt(f, key, head, rest);
      assert c[BlockSize..] == c';
      BlockAtTail(c, j);
      BlockAtTail(p, j);
      if j > 1 {
        BlockAtTail(c, j - 1);
      } else {
        assert BlockAt(c, 0) == head;
      }
    }
  }

  /** Every plaintext block obeys the CBC decryption equation. */
  lemma {:induction false} DecryptChains(f: Suite, key: AesKey, iv: Block, c: Bytes, j: nat)
    requires BlockAligned(c) && j < |c| / BlockSize
    ensures BlockAligned(Decrypt(f, key, iv, c))
    ensures BlockAt(Decrypt(f, key, iv, c), j)
         == Xor(f.decryptBlock(key, BlockAt(c, j)), ChainedBlock(iv, c, j))
    decreases j
  {
    var p := Decrypt(f, key, iv, c);
    var head := c[..BlockSize];
    var rest := c[BlockSize..];
    assert p == Xor(f.decryptBlock(key, head), iv) + Decrypt(f, key, head, rest);
    if j > 0 {
      DecryptChains(f, key, head, rest, j - 1);
      assert p[BlockSize..] == Decrypt(f, key, head, rest);
      BlockAtTail(p, j);
      BlockAtTail(c, j);
      if j > 1 {
        BlockAtTail(c, j - 1);
      } else {
        assert BlockAt(c, 0) == head;
      }
    }
  }

  /** Decryption under the same key and IV undoes encryption. */
  lemma {:induction false} DecryptEncrypt(f: Suite, key: AesKey, iv: Block, p: Bytes)
    requires BlockAligned(p)
    ensures Decrypt(f, key, iv, Encrypt(f, key, iv, p)) == p
    decreases |p|
  {
    if |p| > 0 {
      var head := f.encryptBlock(key, Xor(p[..BlockSize], iv));
      var c := Encrypt(f, key, iv, p);
      assert c[..BlockSize] == head;
      assert c[BlockSize..] == Encrypt(f, key, head, p[BlockSize..]);
      XorCancel(p[..BlockSize], iv);
      DecryptEncrypt(f, key, head, p[BlockSize..]);
      assert p == p[..BlockSize] + p[BlockSize..];
    }
  }

  /** Encryption under the same key and IV undoes decryption. */
  lemma {:induction false} EncryptDecrypt(f: Suite, key: AesKey, iv: Block, c: Bytes)
    requires BlockAligned(c)
    ensures Encrypt(f, key, iv, Decrypt(f, key, iv, c)) == c
    decreases |c|
  {
    if |c| > 0 {
      var head := c[..BlockSize];
      var p := Decrypt(f, key, iv, c);
      var first := Xor(f.decryptBlock(key, head), iv);
      assert p[..BlockSize] == first;
      assert p[BlockSize..] == Decrypt(f, key, head, c[BlockSize..]);
      XorCancel(f.decryptBlock(key, head), iv);
      EncryptDecrypt(f, key, head, c[BlockSize..]);
      assert c == head + c[BlockSize..];
    }
  }

  /** Encrypting a longer message does not change the ciphertext of its
      block-aligned prefix: CBC only chains forward. */
  lemma {:induction false} EncryptPrefix(f: Suite, key: AesKey, iv: Block, p: Bytes, q: Bytes)
    requires BlockAligned(p) && BlockAligned(q)
    ensures Encrypt(f, key, iv, p + q)[..|p|] == Encrypt(f, key, iv, p)
    decreases |p|
  {
    if |p| > 0 {
      var pq := p + q;
      assert pq[..BlockSize] == p[..BlockSize];
      assert pq[BlockSize..] == p[BlockSize..] + q;
      var head := f.encryptBlock(key, Xor(p[..BlockSize], iv));
      EncryptPrefix(f, key, head, p[BlockSize..], q);
    }
  }
}
