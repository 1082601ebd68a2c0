/** Encrypted database values: the native AES-GCM form, and Laravel's GCM and CBC+HMAC envelopes. */
module Encryption {
  import opened Options
  import opened Bytes
  import opened BlockModes

  datatype Error = KeyNotSet | InvalidKey | DecryptFailed | InvalidData | CipherFailed | RandomFailed
  datatype Result<+T> = Ok(value: T) | Err(error: Error)

  /** The JSON object of a Laravel envelope; a missing member reads as empty. */
  datatype Envelope = Envelope(iv: bytes, value: bytes, mac: bytes, tag: bytes)

  /** The library functions the decoder calls; the block cipher, AEAD and MAC take their key first. */
  datatype Primitives = Primitives(
    toBase64: bytes -> bytes, fromBase64: bytes -> Option<bytes>,
    toHex: bytes -> bytes, fromHex: bytes -> Option<bytes>,
    render: Envelope -> bytes, parse: bytes -> Option<Envelope>,
    block: bytes -> Block,
    seal: (bytes, bytes, bytes) -> bytes, open: (bytes, bytes, bytes) -> Option<bytes>,
    mac: (bytes, bytes) -> bytes)

  const NONCE_SIZE: nat := 12
  const TAG_SIZE: nat := 16
  const KEY_SIZE: nat := 32

  /** The envelope whose members hold these four byte strings, as an encoder writes them. */
  function EncodedEnvelope(p: Primitives, iv: bytes, value: bytes, mac: bytes, tag: bytes): Envelope {
    Envelope(p.toBase64(iv), p.toBase64(value), p.toHex(mac), p.toBase64(tag))
  }

  /** What is known of the library functions: each decoder inverts its encoder, nothing more. JSON does so on
      encoded envelopes, not on members that are arbitrary bytes. */
  ghost predicate Lawful(p: Primitives) {
    && (forall x :: p.fromBase64(p.toBase64(x)) == Some(x)) && p.toBase64([]) == []
    && (forall x :: p.fromHex(p.toHex(x)) == Some(x)) && p.toHex([]) == []
    && (forall iv, value, mac, tag ::
          p.parse(p.render(EncodedEnvelope(p, iv, value, mac, tag))) == Some(EncodedEnvelope(p, iv, value, mac, tag)))
    && (forall key :: Permutes(p.block(key)))
    && (forall key, nonce, x :: p.open(key, nonce, p.seal(key, nonce, x)) == Some(x))
    && (forall key, nonce, x :: |p.seal(key, nonce, x)| == |x| + TAG_SIZE)
    && (forall key, x :: |p.mac(key, x)| == 32)
  }

  /** aes.NewCipher takes keys of three lengths. */
  predicate ValidKey(key: bytes) {
    |key| == 16 || |key| == 24 || |key| == 32
  }

  // ---------- specifications ----------

  /** Encrypt, with the nonce drawn from the random source, or None when that failed. */
  function EncryptSpec(p: Primitives, key: Option<bytes>, nonce: Option<bytes>, plaintext: bytes): Result<bytes> {
    if key.None? then Err(KeyNotSet)
    else if !ValidKey(key.value) then Err(CipherFailed)
    else if nonce.None? then Err(RandomFailed)
    else Ok(p.toBase64(nonce.value + p.seal(key.value, nonce.value, plaintext)))
  }

  predicate LaravelShaped(e: Option<Envelope>) {
    e.Some? && e.value.iv != [] && e.value.value != [] && (e.value.mac != [] || e.value.tag != [])
  }

  function OpenEnvelopeGcm(
    p: Primitives, e: Envelope, key: bytes, iv: bytes, ciphertext: bytes, newGCM: bool): Result<bytes>
  {
    var tag := p.fromBase64(e.tag);
    if tag.None? then Err(InvalidData)
    else if !newGCM then Err(DecryptFailed)
    else if |iv| != NONCE_SIZE then Err(InvalidData)
    else
      match p.open(key, iv, ciphertext + tag.value)
      case None => Err(DecryptFailed)
      case Some(plaintext) => Ok(plaintext)
  }

  function OpenEnvelopeCbc(p: Primitives, e: Envelope, key: bytes, iv: bytes, ciphertext: bytes): Result<bytes>
    requires Lawful(p)
  {
    var expectedMAC := p.fromHex(e.mac);
    if expectedMAC.None? then Err(InvalidData)
    else if p.mac(key, e.iv + e.value) != expectedMAC.value then Err(DecryptFailed)
    else if |iv| != BLOCK_SIZE || |ciphertext| == 0 || |ciphertext| % BLOCK_SIZE != 0 then Err(InvalidData)
    else
      match Unpad(CbcDecrypt(p.block(key), iv, ciphertext), BLOCK_SIZE)
      case None => Err(DecryptFailed)
      case Some(plaintext) => Ok(plaintext)
  }

  /** None: not an envelope at all. Some: an envelope, opened or refused. */
  function DecryptLaravelSpec(p: Primitives, raw: bytes, key: bytes, newGCM: bool): Option<Result<bytes>>
    requires Lawful(p)
  {
    var payload := p.parse(raw);
    if !LaravelShaped(payload) then None
    else
      var e := payload.value;
      var iv, ciphertext := p.fromBase64(e.iv), p.fromBase64(e.value);
      if iv.None? || ciphertext.None? then Some(Err(InvalidData))
      else if !ValidKey(key) then Some(Err(DecryptFailed))
      else if e.tag != [] then Some(OpenEnvelopeGcm(p, e, key, iv.value, ciphertext.value, newGCM))
      else Some(OpenEnvelopeCbc(p, e, key, iv.value, ciphertext.value))
  }

  function NativeOpen(p: Primitives, key: bytes, raw: bytes): Option<bytes> {
    if |raw| < NONCE_SIZE then None else p.open(key, raw[..NONCE_SIZE], raw[NONCE_SIZE..])
  }

  function DecryptSpec(p: Primitives, key: Option<bytes>, encrypted: bytes): Result<bytes>
    requires Lawful(p)
  {
    if key.None? || p.fromBase64(encrypted).None? || !ValidKey(key.value) then Ok(encrypted)
    else
      var raw := p.fromBase64(encrypted).value;
      if |raw| < NONCE_SIZE then Ok(encrypted)
      else if NativeOpen(p, key.value, raw).Some? then Ok(NativeOpen(p, key.value, raw).value)
      else
        match DecryptLaravelSpec(p, raw, key.value, true)
        case Some(result) => result
        case None => Ok(encrypted)
  }

  // ---------- the package with its global key ----------

  class Encrypter {
    const p: Primitives
    var encryptionKey: Option<bytes>

    constructor (p: Primitives)
      ensures this.p == p && encryptionKey == None
    {
      this.p := p;
      encryptionKey := None;
    }

    method SetEncryptionKey(key: bytes) returns (r: Result<()>)
      modifies this
      ensures |key| == 32 ==> r == Ok(()) && encryptionKey == Some(key)
      ensures |key| != 32 ==> r == Err(InvalidKey) && encryptionKey == old(encryptionKey)
    {
      if |key| != KEY_SIZE {
        return Err(InvalidKey);
      }
      encryptionKey := Some(key);
      return Ok(());
    }

    method Encrypt(plaintext: bytes, nonce: Option<bytes>) returns (r: Result<bytes>)
      ensures r == EncryptSpec(p, encryptionKey, nonce, plaintext)
    {
      if encryptionKey.None? {
        return Err(KeyNotSet);
      }
      var key := encryptionKey.value;
      if !ValidKey(key) {
        return Err(CipherFailed);
      }
      if nonce.None? {
        return Err(RandomFailed);
      }
      var ciphertext := nonce.value + p.seal(key, nonce.value, plaintext);
      return Ok(p.toBase64(ciphertext));
    }

    method DecryptLaravelPayloadWithGCM(raw: bytes, key: bytes, newGCM: bool) returns (r: Option<Result<bytes>>)
      requires Lawful(p)
      ensures r == DecryptLaravelSpec(p, raw, key, newGCM)
    {
      var payload := p.parse(raw);
      if payload.None? {
        return None;
      }
      var e := payload.value;
      if e.iv == [] || e.value == [] || (e.mac == [] && e.tag == []) {
        return None;
      }
      var iv := p.fromBase64(e.iv);
      if iv.None? {
        return Some(Err(InvalidData));
      }
      var ciphertext := p.fromBase64(e.value);
      if ciphertext.None? {
        return Some(Err(InvalidData));
      }
      if !ValidKey(key) {
        return Some(Err(DecryptFailed));
      }
      if e.tag != [] {
        var tag := p.fromBase64(e.tag);
        if tag.None? {
          return Some(Err(InvalidData));
        }
        if !newGCM {
          return Some(Err(DecryptFailed));
        }
        if |iv.value| != NONCE_SIZE {
          return Some(Err(InvalidData));
        }
        var opened_ := p.open(key, iv.value, ciphertext.value + tag.value);
        if opened_.None? {
          return Some(Err(DecryptFailed));
        }
        return Some(Ok(opened_.value));
      }
      var expectedMAC := p.fromHex(e.mac);
      if expectedMAC.None? {
        return Some(Err(InvalidData));
      }
      if p.mac(key, e.iv + e.value) != expectedMAC.value {
        return Some(Err(DecryptFailed));
      }
      if |iv.value| != BLOCK_SIZE || |ciphertext.value| == 0 || |ciphertext.value| % BLOCK_SIZE != 0 {
        return Some(Err(InvalidData));
      }
      var plaintext := new byte[|ciphertext.value|];
      CryptBlocks(p.block(key), iv.value, plaintext, ciphertext.value);
      var unpadded := UnpadPKCS7(plaintext[..], BLOCK_SIZE);
      if unpadded.None? {
        return Some(Err(DecryptFailed));
      }
      return Some(Ok(unpadded.value));
    }

    method Decrypt(encrypted: bytes) returns (r: Result<bytes>)
      requires Lawful(p)
      ensures r == DecryptSpec(p, encryptionKey, encrypted)
    {
      if encryptionKey.None? {
        return Ok(encrypted);
      }
      var key := encryptionKey.value;
      var ciphertext := p.fromBase64(encrypted);
      if ciphertext.None? || !ValidKey(key) || |ciphertext.value| < NONCE_SIZE {
        return Ok(encrypted);
      }
      var native := p.open(key, ciphertext.value[..NONCE_SIZE], ciphertext.value[NONCE_SIZE..]);
      if native.Some? {
        return Ok(native.value);
      }
      var laravel := DecryptLaravelPayloadWithGCM(ciphertext.value, key, true);
      if laravel.Some? {
        return laravel.value;
      }
      return Ok(encrypted);
    }
  }

  // ---------- round trips ----------

  /** Decrypt inverts Encrypt on every plaintext, also on one that itself looks encrypted. */
  lemma DecryptEncrypt(p: Primitives, key: bytes, nonce: bytes, plaintext: bytes)
    requires Lawful(p) && |key| == KEY_SIZE && |nonce| == NONCE_SIZE
    ensures var encrypted := EncryptSpec(p, Some(key), Some(nonce), plaintext);
            encrypted.Ok? && encrypted.value != [] && DecryptSpec(p, Some(key), encrypted.value) == Ok(plaintext)
  {
  }

  /** The CBC envelope Laravel builds: pad, chain, and MAC over the encoded iv and value. */
  function CbcEnvelope(p: Primitives, key: bytes, iv: bytes, plaintext: bytes): Envelope
    requires Lawful(p) && |iv| == BLOCK_SIZE
  {
    PadAligned(plaintext, BLOCK_SIZE);
    var cipher := CbcEncrypt(p.block(key), iv, Pad(plaintext, BLOCK_SIZE));
    EncodedEnvelope(p, iv, cipher, p.mac(key, p.toBase64(iv) + p.toBase64(cipher)), [])
  }

  /** The GCM envelope Laravel builds: ciphertext and tag apart. */
  function GcmEnvelope(p: Primitives, key: bytes, nonce: bytes, plaintext: bytes): Envelope
    requires Lawful(p)
  {
    var sealed := p.seal(key, nonce, plaintext);
    EncodedEnvelope(p, nonce, sealed[..|plaintext|], [], sealed[|plaintext|..])
  }

  lemma EncodingsNonEmpty(p: Primitives, x: bytes)
    requires Lawful(p)
    ensures p.toBase64(x) == [] <==> x == []
    ensures p.toHex(x) == [] <==> x == []
  {
  }

  /** Decoding a Laravel CBC envelope gives exactly the plaintext it was built from. */
  lemma CbcEnvelopeOpens(p: Primitives, key: bytes, iv: bytes, plaintext: bytes, newGCM: bool)
    requires Lawful(p) && ValidKey(key) && |iv| == BLOCK_SIZE
    ensures DecryptLaravelSpec(p, p.render(CbcEnvelope(p, key, iv, plaintext)), key, newGCM) == Some(Ok(plaintext))
  {
    hide Pad, Unpad, CbcEncrypt, CbcDecrypt, Permutes;
    var padded := Pad(plaintext, BLOCK_SIZE);
    PadAligned(plaintext, BLOCK_SIZE);
    PadNonEmpty(plaintext);
    CbcRoundTrip(p.block(key), iv, padded);
    UnpadIff(padded, BLOCK_SIZE, plaintext);
    var e := CbcEnvelope(p, key, iv, plaintext);
    var cipher := CbcEncrypt(p.block(key), iv, padded);
    EncodingsNonEmpty(p, iv);
    EncodingsNonEmpty(p, cipher);
    EncodingsNonEmpty(p, p.mac(key, e.iv + e.value));
    assert p.parse(p.render(e)) == Some(e);
    assert p.fromBase64(e.iv) == Some(iv) && p.fromBase64(e.value) == Some(cipher);
    assert p.fromHex(e.mac) == Some(p.mac(key, e.iv + e.value));
  }

  lemma PadNonEmpty(x: bytes)
    ensures Pad(x, BLOCK_SIZE) != []
  {
  }

  /** Decoding a Laravel GCM envelope gives the plaintext back exactly when there is one: the envelope of an
      empty plaintext has an empty value, and is not recognised as an envelope. */
  lemma GcmEnvelopeOpensIff(p: Primitives, key: bytes, nonce: bytes, plaintext: bytes)
    requires Lawful(p) && ValidKey(key) && |nonce| == NONCE_SIZE
    ensures var r := DecryptLaravelSpec(p, p.render(GcmEnvelope(p, key, nonce, plaintext)), key, true);
            (r == Some(Ok(plaintext)) <==> plaintext != []) && (plaintext == [] ==> r == None)
  {
    var sealed := p.seal(key, nonce, plaintext);
    var e := GcmEnvelope(p, key, nonce, plaintext);
    var front, tag := sealed[..|plaintext|], sealed[|plaintext|..];
    assert |sealed| == |plaintext| + TAG_SIZE;
    EncodingsNonEmpty(p, nonce);
    EncodingsNonEmpty(p, front);
    EncodingsNonEmpty(p, tag);
    assert p.parse(p.render(e)) == Some(e);
    assert p.fromBase64(e.iv) == Some(nonce) && p.fromBase64(e.value) == Some(front);
    assert p.fromBase64(e.tag) == Some(tag);
    assert front + tag == sealed;
    assert p.open(key, nonce, sealed) == Some(plaintext);
  }

  /** The whole Decrypt on an envelope: the envelope's plaintext, unless the raw JSON happens to authenticate
      as native ciphertext. */
  lemma DecryptEnvelope(p: Primitives, key: bytes, e: Envelope, plaintext: bytes)
    requires Lawful(p) && |key| == KEY_SIZE && |p.render(e)| >= NONCE_SIZE
    requires DecryptLaravelSpec(p, p.render(e), key, true) == Some(Ok(plaintext))
    ensures DecryptSpec(p, Some(key), p.toBase64(p.render(e)))
         == if NativeOpen(p, key, p.render(e)).Some? then Ok(NativeOpen(p, key, p.render(e)).value) else Ok(plaintext)
  {
  }

  // ---------- what Decrypt can return ----------

  /** The payload e, and no other, authenticates under this key and carries the plaintext v. */
  ghost predicate OpensAs(p: Primitives, key: bytes, e: Envelope, v: bytes)
    requires Lawful(p)
  {
    var iv, cipher := p.fromBase64(e.iv), p.fromBase64(e.value);
    && iv.Some? && cipher.Some?
    && if e.tag != []
       then TagHolds(p, key, e, iv.value, cipher.value, v)
       else MacHolds(p, key, e, iv.value, cipher.value, v)
  }

  /** The AEAD opens the payload's own ciphertext and tag. */
  ghost predicate TagHolds(p: Primitives, key: bytes, e: Envelope, iv: bytes, cipher: bytes, v: bytes) {
    && p.fromBase64(e.tag).Some? && |iv| == NONCE_SIZE
    && p.open(key, iv, cipher + p.fromBase64(e.tag).value) == Some(v)
  }

  /** The payload's MAC is that of its encoded iv and value, and they decrypt to the padding of v. */
  ghost predicate MacHolds(p: Primitives, key: bytes, e: Envelope, iv: bytes, cipher: bytes, v: bytes)
    requires Lawful(p)
  {
    && p.fromHex(e.mac) == Some(p.mac(key, e.iv + e.value))
    && |iv| == BLOCK_SIZE && |cipher| % BLOCK_SIZE == 0
    && CbcDecrypt(p.block(key), iv, cipher) == Pad(v, BLOCK_SIZE)
  }

  lemma CbcOpensIff(p: Primitives, key: bytes, e: Envelope, iv: bytes, cipher: bytes, v: bytes)
    requires Lawful(p)
    ensures OpenEnvelopeCbc(p, e, key, iv, cipher) == Ok(v) <==> MacHolds(p, key, e, iv, cipher, v)
  {
    hide Pad, Unpad, CbcDecrypt, Permutes;
    if |iv| == BLOCK_SIZE && |cipher| % BLOCK_SIZE == 0 {
      UnpadIff(CbcDecrypt(p.block(key), iv, cipher), BLOCK_SIZE, v);
      if cipher == [] {
        CbcDecryptLength(p.block(key), iv, cipher);
        PadNonEmpty(v);
      }
    }
  }

  /** Exactly which values the envelope decoder returns: those that the parsed payload itself authenticates. */
  lemma EnvelopeOpensIff(p: Primitives, key: bytes, raw: bytes, newGCM: bool, v: bytes)
    requires Lawful(p)
    ensures DecryptLaravelSpec(p, raw, key, newGCM) == Some(Ok(v))
      <==> && LaravelShaped(p.parse(raw)) && |key| in {16, 24, 32}
           && (p.parse(raw).value.tag != [] ==> newGCM)
           && OpensAs(p, key, p.parse(raw).value, v)
  {
    hide MacHolds, OpenEnvelopeCbc, Permutes;
    if LaravelShaped(p.parse(raw)) {
      var e := p.parse(raw).value;
      var iv, cipher := p.fromBase64(e.iv), p.fromBase64(e.value);
      if iv.Some? && cipher.Some? {
        CbcOpensIff(p, key, e, iv.value, cipher.value, v);
      }
    }
  }

  /** Which error a refused envelope gives: InvalidData exactly where a member does not decode or has the wrong size
      (the sizes of a CBC payload only once its MAC holds), and DecryptFailed for everything else. */
  lemma EnvelopeErrors(p: Primitives, key: bytes, raw: bytes, newGCM: bool)
    requires Lawful(p) && LaravelShaped(p.parse(raw))
    ensures DecryptLaravelSpec(p, raw, key, newGCM).Some?
    ensures var e, r := p.parse(raw).value, DecryptLaravelSpec(p, raw, key, newGCM).value;
            var iv, cipher := p.fromBase64(e.iv), p.fromBase64(e.value);
            var tag, mac := p.fromBase64(e.tag), p.fromHex(e.mac);
            && (r.Ok? || r == Err(InvalidData) || r == Err(DecryptFailed))
            && (r == Err(InvalidData) <==>
                  || iv.None? || cipher.None?
                  || (|key| in {16, 24, 32} && e.tag != [] && (tag.None? || (newGCM && |iv.value| != 12)))
                  || (|key| in {16, 24, 32} && e.tag == [] &&
                      (mac.None? ||
                       (mac == Some(p.mac(key, e.iv + e.value)) &&
                        (|iv.value| != 16 || cipher.value == [] || |cipher.value| % 16 != 0)))))
  {
    hide Unpad, CbcDecrypt;
  }

  /** The input decodes to something long enough to be ciphertext, under a usable key. */
  ghost predicate Decodes(p: Primitives, key: Option<bytes>, encrypted: bytes) {
    && key.Some? && ValidKey(key.value)
    && p.fromBase64(encrypted).Some? && |p.fromBase64(encrypted).value| >= NONCE_SIZE
  }

  /** Decrypt in three cases, each exact: the native form gives what the AEAD opens; a Laravel-shaped payload gives
      v iff that very payload authenticates v, and fails iff it authenticates nothing; all else comes back as it is. */
  lemma DecryptReturns(p: Primitives, key: Option<bytes>, encrypted: bytes)
    requires Lawful(p)
    ensures !Decodes(p, key, encrypted) ==> DecryptSpec(p, key, encrypted) == Ok(encrypted)
    ensures Decodes(p, key, encrypted) ==>
              var r, raw := DecryptSpec(p, key, encrypted), p.fromBase64(encrypted).value;
              var native, payload := NativeOpen(p, key.value, raw), p.parse(raw);
              if native.Some? then r == Ok(native.value)
              else if !LaravelShaped(payload) then r == Ok(encrypted)
              else
                && (forall v :: r == Ok(v) <==> OpensAs(p, key.value, payload.value, v))
                && (r.Err? <==> forall v :: !OpensAs(p, key.value, payload.value, v))
  {
    hide Lawful, OpenEnvelopeCbc, OpenEnvelopeGcm, OpensAs;
    if Decodes(p, key, encrypted) {
      var r, raw := DecryptSpec(p, key, encrypted), p.fromBase64(encrypted).value;
      if NativeOpen(p, key.value, raw).None? && LaravelShaped(p.parse(raw)) {
        forall v ensures r == Ok(v) <==> OpensAs(p, key.value, p.parse(raw).value, v) {
          EnvelopeOpensIff(p, key.value, raw, true, v);
        }
        if r.Ok? {
          assert OpensAs(p, key.value, p.parse(raw).value, r.value);
        }
      }
    }
  }
}
