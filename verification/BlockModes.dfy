/** CBC chaining (section 6.2 of NIST SP 800-38A) and PKCS#7 padding (section 6.3 of RFC 5652). */
module BlockModes {
  import opened Options
  import opened Bytes

  const BLOCK_SIZE: nat := 16

  // ---------- padding ----------

  function Repeat(b: byte, n: nat): (r: bytes)
    ensures |r| == n && forall i :: 0 <= i < n ==> r[i] == b
  {
    seq(n, i => b)
  }

  /** Appends 1 to blockSize bytes, each holding their number. */
  function Pad(x: bytes, blockSize: nat): bytes
    requires 1 <= blockSize <= 255
  {
    var n := blockSize - |x| % blockSize;
    x + Repeat(n, n)
  }

  function Unpad(value: bytes, blockSize: nat): Option<bytes>
    requires 1 <= blockSize <= 255
  {
    if value == [] || |value| % blockSize != 0 then None
    else
      var padding := value[|value| - 1];
      if padding == 0 || padding > blockSize || padding > |value| then None
      else if forall i | |value| - padding <= i < |value| :: value[i] == padding
      then Some(value[..|value| - padding])
      else None
  }

  /** unpadPKCS7: checks the last bytes one by one. */
  method UnpadPKCS7(value: bytes, blockSize: nat) returns (r: Option<bytes>)
    requires 1 <= blockSize <= 255
    ensures r == Unpad(value, blockSize)
  {
    if |value| == 0 || |value| % blockSize != 0 {
      return None;
    }
    var padding := value[|value| - 1];
    if padding == 0 || padding > blockSize || padding > |value| {
      return None;
    }
    for i := |value| - padding to |value|
      invariant forall j :: |value| - padding <= j < i ==> value[j] == padding
    {
      if value[i] != padding {
        return None;
      }
    }
    return Some(value[..|value| - padding]);
  }

  lemma ModStep(a: nat, n: nat, m: nat)
    requires 1 <= n <= m && (a + n) % m == 0
    ensures n == m - a % m
  {
    var k := (a + n) / m;
    assert a + n == k * m;
    assert a == (k - 1) * m + (m - n);
    ModUnique(k - 1, m - n, m);
  }

  lemma PadAligned(x: bytes, blockSize: nat)
    requires 1 <= blockSize <= 255
    ensures |Pad(x, blockSize)| % blockSize == 0
  {
    var q, r := |x| / blockSize, |x| % blockSize;
    assert |Pad(x, blockSize)| == (q + 1) * blockSize + 0;
    ModUnique(q + 1, 0, blockSize);
  }

  /** Unpadding succeeds exactly on padded values, and returns the one value they pad. */
  lemma UnpadIff(value: bytes, blockSize: nat, x: bytes)
    requires 1 <= blockSize <= 255
    ensures Unpad(value, blockSize) == Some(x) <==> value == Pad(x, blockSize)
  {
    if value == Pad(x, blockSize) {
      PadAligned(x, blockSize);
      assert value[..|x|] == x;
    }
    if Unpad(value, blockSize) == Some(x) {
      var padding := value[|value| - 1];
      ModStep(|x|, padding, blockSize);
      assert value == x + Repeat(padding, padding);
    }
  }

  /** What unpadding accepts, byte by byte: whole blocks that end in 1 to blockSize bytes holding their number. */
  lemma UnpadMeaning(value: bytes, blockSize: nat, x: bytes)
    requires 1 <= blockSize <= 255
    ensures Unpad(value, blockSize) == Some(x)
      <==> && |value| % blockSize == 0 && 1 <= |value| - |x| <= blockSize && value[..|x|] == x
           && forall i :: |x| <= i < |value| ==> value[i] == |value| - |x|
  {
  }

  // ---------- chaining ----------

  /** A block permutation and its inverse, under one key. */
  datatype Block = Block(encrypt: bytes -> bytes, decrypt: bytes -> bytes)

  ghost predicate Permutes(block: Block) {
    && (forall b: bytes :: |b| == BLOCK_SIZE ==> |block.encrypt(b)| == BLOCK_SIZE)
    && (forall b: bytes :: |b| == BLOCK_SIZE ==> |block.decrypt(b)| == BLOCK_SIZE)
    && (forall b: bytes :: |b| == BLOCK_SIZE ==> block.decrypt(block.encrypt(b)) == b)
  }

  function CbcEncrypt(block: Block, iv: bytes, plain: bytes): bytes
    requires Permutes(block) && |iv| == BLOCK_SIZE && |plain| % BLOCK_SIZE == 0
    decreases |plain|
  {
    if plain == [] then []
    else
      var c := block.encrypt(Xor(plain[..BLOCK_SIZE], iv));
      c + CbcEncrypt(block, c, plain[BLOCK_SIZE..])
  }

  function CbcDecrypt(block: Block, iv: bytes, cipher: bytes): bytes
    requires Permutes(block) && |iv| == BLOCK_SIZE && |cipher| % BLOCK_SIZE == 0
    decreases |cipher|
  {
    if cipher == [] then []
    else
      Xor(block.decrypt(cipher[..BLOCK_SIZE]), iv) + CbcDecrypt(block, cipher[..BLOCK_SIZE], cipher[BLOCK_SIZE..])
  }

  lemma {:induction false} CbcDecryptLength(block: Block, iv: bytes, cipher: bytes)
    requires Permutes(block) && |iv| == BLOCK_SIZE && |cipher| % BLOCK_SIZE == 0
    ensures |CbcDecrypt(block, iv, cipher)| == |cipher|
    decreases |cipher|
  {
    if cipher != [] {
      CbcDecryptLength(block, cipher[..BLOCK_SIZE], cipher[BLOCK_SIZE..]);
    }
  }

  /** Decrypting the chain gives the plaintext back, for any block permutation. */
  lemma {:induction false} CbcRoundTrip(block: Block, iv: bytes, plain: bytes)
    requires Permutes(block) && |iv| == BLOCK_SIZE && |plain| % BLOCK_SIZE == 0
    ensures |CbcEncrypt(block, iv, plain)| == |plain|
    ensures CbcDecrypt(block, iv, CbcEncrypt(block, iv, plain)) == plain
    decreases |plain|
  {
    if plain != [] {
      var head, tail := plain[..BLOCK_SIZE], plain[BLOCK_SIZE..];
      var c := block.encrypt(Xor(head, iv));
      var rest := CbcEncrypt(block, c, tail);
      CbcRoundTrip(block, c, tail);
      XorTwice(head, iv);
      var cipher := CbcEncrypt(block, iv, plain);
      assert cipher[..BLOCK_SIZE] == c && cipher[BLOCK_SIZE..] == rest;
      assert plain == head + tail;
    }
  }

  lemma CbcStep(block: Block, previous: bytes, src: bytes, i: nat)
    requires Permutes(block) && |previous| == BLOCK_SIZE && i < |src| && (|src| - i) % BLOCK_SIZE == 0
    ensures i + BLOCK_SIZE <= |src| && |block.decrypt(src[i..i + BLOCK_SIZE])| == BLOCK_SIZE
    ensures var current := src[i..i + BLOCK_SIZE];
            CbcDecrypt(block, previous, src[i..])
            == Xor(block.decrypt(current), previous) + CbcDecrypt(block, current, src[i + BLOCK_SIZE..])
  {
    assert src[i..][..BLOCK_SIZE] == src[i..i + BLOCK_SIZE] && src[i..][BLOCK_SIZE..] == src[i + BLOCK_SIZE..];
  }

  /** The cipher block before the i-th, and the iv before the first. */
  function Previous(iv: bytes, cipher: bytes, i: nat): bytes
    requires BLOCK_SIZE * i <= |cipher|
  {
    if i == 0 then iv else cipher[BLOCK_SIZE * (i - 1)..BLOCK_SIZE * i]
  }

  /** From the i-th block on, decryption goes on as if the block before were the iv. */
  lemma {:induction false} CbcDecryptFrom(block: Block, iv: bytes, cipher: bytes, i: nat)
    requires Permutes(block) && |iv| == BLOCK_SIZE && |cipher| % BLOCK_SIZE == 0 && BLOCK_SIZE * i <= |cipher|
    ensures |CbcDecrypt(block, iv, cipher)| == |cipher|
    ensures CbcDecrypt(block, iv, cipher)[BLOCK_SIZE * i..]
         == CbcDecrypt(block, Previous(iv, cipher, i), cipher[BLOCK_SIZE * i..])
  {
    hide CbcDecrypt, Permutes;
    CbcDecryptLength(block, iv, cipher);
    if i == 0 {
      assert cipher[0..] == cipher && CbcDecrypt(block, iv, cipher)[0..] == CbcDecrypt(block, iv, cipher);
    } else {
      var at := BLOCK_SIZE * (i - 1);
      CbcDecryptFrom(block, iv, cipher, i - 1);
      CbcStep(block, Previous(iv, cipher, i - 1), cipher, at);
      assert CbcDecrypt(block, iv, cipher)[at + BLOCK_SIZE..] == CbcDecrypt(block, iv, cipher)[at..][BLOCK_SIZE..];
    }
  }

  /** What CBC decryption is, block by block and bit by bit: the deciphered block, with exactly those bits flipped
      that are set in the cipher block before it (in the iv, for the first). */
  lemma CbcDecryptBits(block: Block, iv: bytes, cipher: bytes, i: nat, j: nat, k: nat)
    requires Permutes(block) && |iv| == BLOCK_SIZE && |cipher| % BLOCK_SIZE == 0
    requires BLOCK_SIZE * i < |cipher| && j < BLOCK_SIZE && k < 8
    ensures |CbcDecrypt(block, iv, cipher)| == |cipher| && BLOCK_SIZE * i + BLOCK_SIZE <= |cipher| && Pow2(k) > 0
    ensures var deciphered := block.decrypt(cipher[BLOCK_SIZE * i..BLOCK_SIZE * i + BLOCK_SIZE]);
            var previous := if i == 0 then iv else cipher[BLOCK_SIZE * (i - 1)..BLOCK_SIZE * i];
            && |deciphered| == |previous| == BLOCK_SIZE
            && (CbcDecrypt(block, iv, cipher)[BLOCK_SIZE * i + j] / Pow2(k) % 2 == 1
                <==> deciphered[j] / Pow2(k) % 2 != previous[j] / Pow2(k) % 2)
  {
    hide CbcDecrypt, XorByte, Pow2, Permutes;
    CbcDecryptFrom(block, iv, cipher, i);
    var at, previous := BLOCK_SIZE * i, Previous(iv, cipher, i);
    CbcStep(block, previous, cipher, at);
    var deciphered := block.decrypt(cipher[at..at + BLOCK_SIZE]);
    assert CbcDecrypt(block, iv, cipher)[at + j] == CbcDecrypt(block, iv, cipher)[at..][j]
        == XorByte(deciphered[j], previous[j]);
    XorByteAt(deciphered[j], previous[j], k);
  }

  lemma CbcEmpty(block: Block, previous: bytes)
    requires Permutes(block) && |previous| == BLOCK_SIZE
    ensures CbcDecrypt(block, previous, []) == []
  {
  }

  method PutBlock(dst: array<byte>, at: nat, block: bytes)
    requires at + |block| <= dst.Length
    modifies dst
    ensures dst[..at] == old(dst[..at]) && dst[at..at + |block|] == block
  {
    for j := 0 to |block|
      invariant dst[..at] == old(dst[..at]) && dst[at..at + j] == block[..j]
    {
      dst[at + j] := block[j];
    }
  }

  /** CryptBlocks: fills the destination buffer block by block, chaining on the previous cipher block. */
  method CryptBlocks(block: Block, iv: bytes, dst: array<byte>, src: bytes)
    requires Permutes(block) && |iv| == BLOCK_SIZE && |src| % BLOCK_SIZE == 0 && dst.Length == |src|
    modifies dst
    ensures dst[..] == CbcDecrypt(block, iv, src)
  {
    hide CbcDecrypt, Permutes;
    var i, previous := 0, iv;
    assert src[0..] == src;
    while i < |src|
      invariant 0 <= i <= |src| && (|src| - i) % BLOCK_SIZE == 0 && |previous| == BLOCK_SIZE
      invariant dst[..i] + CbcDecrypt(block, previous, src[i..]) == CbcDecrypt(block, iv, src)
    {
      CbcStep(block, previous, src, i);
      var current := src[i..i + BLOCK_SIZE];
      var plain := Xor(block.decrypt(current), previous);
      ghost var before, rest := dst[..i], CbcDecrypt(block, current, src[i + BLOCK_SIZE..]);
      PutBlock(dst, i, plain);
      assert dst[..i + BLOCK_SIZE] == before + plain;
      assert (before + plain) + rest == before + (plain + rest);
      i, previous := i + BLOCK_SIZE, current;
    }
    CbcEmpty(block, previous);
    assert src[i..] == [] && dst[..] == dst[..i] + [];
  }
}
