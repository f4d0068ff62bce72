/** The bytes on the wire and what is accepted from it, in terms of the primitives alone. */
module WireFormats {
  import opened Wrappers
  import opened Bytes
  import opened Labels
  import opened Primitives
  import opened Evp
  import opened ChannelEncryptions

  // ---------- AES-GCM (NIST SP 800-38D) ----------

  /** The 32-bit counter, most significant byte first. */
  function Counter(n: nat): (b: bytes)
    ensures |b| == 4
  {
    var le := ToLE(n % TWO_32, 4);
    [le[3], le[2], le[1], le[0]]
  }

  /** Every byte is combined with the key stream, whose first block has counter value 2. */
  ghost predicate GcmText(p: Primitives, key: Key, iv: bytes, plain: bytes, ct: bytes)
    requires |iv| == 12
  {
    && |ct| == |plain|
    && forall i :: 0 <= i < |plain| ==> ct[i] == Xor(plain[i], p.encryptBlock(key, iv + Counter(2 + i / 16))[i % 16])
  }

  lemma {:induction false} CounterBytes(n: nat)
    ensures BigEndian32(n % TWO_32) == Counter(n)
  {
    var v := n % TWO_32;
    var a := v / 0x100;
    var b := a / 0x100;
    assert ToLE(v, 4) == [v % 256] + ToLE(a, 3);
    assert ToLE(a, 3) == [a % 256] + ToLE(b, 2);
    assert ToLE(b, 2) == [b % 256] + ToLE(b / 0x100, 1);
    assert ToLE(b / 0x100, 1) == [b / 0x100 % 256] + ToLE(b / 0x100 / 0x100, 0);
    assert v / 0x1_0000 == b && v / 0x100_0000 == b / 0x100;
  }

  lemma {:induction false} KeyStreamByte(p: Primitives, key: Key, iv: bytes, i: nat)
    requires |iv| == 12
    ensures KeyStream(p, key, iv, i) == p.encryptBlock(key, iv + Counter(2 + i / 16))[i % 16]
  {
    CounterBytes(2 + i / 16);
  }

  lemma {:induction false} CtrIsGcmText(p: Primitives, key: Key, iv: bytes, plain: bytes, ct: bytes)
    requires |iv| == 12
    ensures ct == CtrXor(p, key, iv, 0, plain) <==> GcmText(p, key, iv, plain, ct)
  {
    hide Xor, Counter, KeyStream;
    forall i | 0 <= i < |plain|
      ensures CtrXor(p, key, iv, 0, plain)[i] == Xor(plain[i], p.encryptBlock(key, iv + Counter(2 + i / 16))[i % 16])
    {
      KeyStreamByte(p, key, iv, i);
    }
    if GcmText(p, key, iv, plain, ct) {
      assert ct == CtrXor(p, key, iv, 0, plain);
    }
  }

  /** Sealing gives iv, text and tag, and nothing else. */
  lemma {:induction false} GcmSealed(p: Primitives, key: Key, iv: bytes, plain: bytes, sealed: bytes)
    requires |iv| == 12 && |plain| < 0x8000_0000
    ensures var n := |plain|;
            Sealed(p, Aes256Gcm, key, iv, plain) == Ok(sealed)
            <==> && |sealed| == 12 + n + 16
                 && sealed[..12] == iv
                 && GcmText(p, key, iv, plain, sealed[12..12 + n])
                 && sealed[12 + n..] == p.gcmTag(key, iv, sealed[12..12 + n])
  {
    hide GcmText, CtrXor;
    var n := |plain|;
    assert plain[..n] == plain;
    var ct := CtrXor(p, key, iv, 0, plain);
    var all := iv + ct + p.gcmTag(key, iv, ct);
    assert all[..12] == iv && all[12..12 + n] == ct && all[12 + n..] == p.gcmTag(key, iv, ct);
    CtrIsGcmText(p, key, iv, plain, ct);
    if |sealed| == 12 + n + 16 {
      assert sealed == sealed[..12] + sealed[12..12 + n] + sealed[12 + n..];
      CtrIsGcmText(p, key, iv, plain, sealed[12..12 + n]);
    }
  }

  /** A text is opened exactly if its last 16 bytes are the tag of what is in front of them, and
      then to the text under the key stream. Only sizes beyond a C `int` are cut. */
  lemma {:induction false} GcmOpened(p: Primitives, key: Key, sealed: bytes)
    requires |sealed| >= 12 + 16 && IntSize(|sealed| - 28) >= 0
    ensures var n := IntSize(|sealed| - 28);
            var iv, ct, tag := sealed[..12], sealed[12..12 + n], sealed[|sealed| - 16..];
            var r := Opened(p, Aes256Gcm, key, sealed);
            && (r.Ok? <==> tag == p.gcmTag(key, iv, ct))
            && (r.Ok? ==> GcmText(p, key, iv, ct, r.value))
            && (r.Err? ==> r == Err(BadTagOrPadding))
  {
    hide GcmText, CtrXor, IntSize;
    var n := IntSize(|sealed| - 28);
    var rest := sealed[12..];
    assert rest[..|rest| - 16][..n] == sealed[12..12 + n];
    assert rest[|rest| - 16..] == sealed[|sealed| - 16..];
    var ct := sealed[12..12 + n];
    CtrIsGcmText(p, key, sealed[..12], ct, CtrXor(p, key, sealed[..12], 0, ct));
  }

  lemma {:induction false} GcmRefused(p: Primitives, key: Key, sealed: bytes)
    ensures Opened(p, Aes256Gcm, key, sealed) == Err(TooShort) <==> |sealed| < 12 + 16
    ensures Opened(p, Aes256Gcm, key, sealed) == Err(CipherFailed)
            <==> |sealed| >= 28 && IntSize(|sealed| - 28) < 0
  {
    hide CtrXor, IntSize;
  }

  // ---------- AES-CBC (NIST SP 800-38A section 6.2, RFC 5652 section 6.3) ----------

  function Xored(a: bytes, b: bytes): (c: bytes)
    requires |a| == |b|
    ensures |c| == |a|
  {
    seq(|a|, i requires 0 <= i < |a| => Xor(a[i], b[i]))
  }

  /** Block number `i`. */
  function BlockAt(s: bytes, i: nat): (b: Block)
    requires 16 * i + 16 <= |s|
  {
    s[16 * i..16 * i + 16]
  }

  /** Every block is combined with the one in front of it in `sealed`, the first with the iv. */
  ghost predicate CbcText(p: Primitives, key: Key, padded: bytes, sealed: bytes) {
    && |padded| % 16 == 0 && |sealed| == 16 + |padded|
    && forall i :: 0 <= i < |padded| / 16 ==>
         BlockAt(sealed, i + 1) == p.encryptBlock(key, Xored(BlockAt(padded, i), BlockAt(sealed, i)))
  }

  /** The plaintext followed by 1 to 16 bytes that give their own number. */
  predicate Padded(plain: bytes, padded: bytes) {
    && |padded| % 16 == 0 && 1 <= |padded| - |plain| <= 16
    && padded[..|plain|] == plain
    && forall i :: |plain| <= i < |padded| ==> padded[i] == |padded| - |plain|
  }

  lemma {:induction false} XorBlockIsXored(a: Block, b: Block)
    ensures XorBlock(a, b) == Xored(a, b)
  {
    hide Xor;
  }

  lemma {:induction false} PadIsPadded(plain: bytes, d: bytes)
    ensures Padded(plain, d) <==> d == Pad(plain)
  {
    var k := PadByte(|plain|);
    var padded := Pad(plain);
    assert padded[..|plain|] == plain;
    if Padded(plain, d) {
      assert |d| - |plain| == k;
      assert d == d[..|plain|] + d[|plain|..];
      assert d[|plain|..] == seq(k, _ => k);
    }
  }

  lemma {:induction false} UnpadIsPadded(plain: bytes, d: bytes)
    requires |d| % 16 == 0
    ensures Unpad(d) == Some(plain) <==> Padded(plain, d)
  {
    if Padded(plain, d) {
      PadIsPadded(plain, d);
      UnpadPad(plain);
    }
    if Unpad(d) == Some(plain) {
      var last := d[|d| - 16..];
      var k := PaddingOf(last).value;
      assert |d| - |plain| == k;
      forall i | |plain| <= i < |d| ensures d[i] == k {
        assert last[i - (|d| - 16)] == d[i];
      }
    }
  }

  lemma {:induction false} ShiftedBlocks(a: bytes, b: bytes, i: nat)
    requires |a| == 16 && 16 * i + 16 <= |b|
    ensures BlockAt(a + b, i + 1) == BlockAt(b, i)
    ensures BlockAt(a + b, 0) == a
  {
  }

  /** CBC encryption of whole blocks, block by block. */
  lemma {:induction false} CbcIsText(p: Primitives, key: Key, iv: Block, padded: bytes, i: nat)
    requires |padded| % 16 == 0 && i < |padded| / 16
    ensures var sealed := iv + CbcEncrypt(p, key, iv, padded);
            BlockAt(sealed, i + 1) == p.encryptBlock(key, Xored(BlockAt(padded, i), BlockAt(sealed, i)))
    decreases i
  {
    hide Xored, XorBlock, CbcEncrypt;
    var first, rest := padded[..16], padded[16..];
    var c := p.encryptBlock(key, XorBlock(first, iv));
    assert padded == first + rest;
    CbcEncryptStep(p, key, iv, first, rest);
    var tail := CbcEncrypt(p, key, c, rest);
    ShiftedBlocks(iv, c + tail, i);
    if i == 0 {
      XorBlockIsXored(first, iv);
      assert BlockAt(c + tail, 0) == c;
    } else {
      CbcIsText(p, key, c, rest, i - 1);
      ShiftedBlocks(first, rest, i - 1);
      ShiftedBlocks(iv, c + tail, i - 1);
    }
  }

  /** CBC decryption of whole blocks, block by block. */
  lemma {:induction false} CbcPlainBlock(p: Primitives, key: Key, iv: Block, ct: bytes, i: nat)
    requires |ct| % 16 == 0 && i < |ct| / 16
    ensures BlockAt(CbcDecrypt(p, key, iv, ct), i)
         == Xored(p.decryptBlock(key, BlockAt(iv + ct, i + 1)), BlockAt(iv + ct, i))
    decreases i
  {
    hide Xored, XorBlock, CbcDecrypt;
    var first, rest := ct[..16], ct[16..];
    assert ct == first + rest;
    CbcDecryptStep(p, key, iv, first, rest);
    var head := XorBlock(p.decryptBlock(key, first), iv);
    ShiftedBlocks(iv, ct, i);
    if i == 0 {
      XorBlockIsXored(p.decryptBlock(key, first), iv);
    } else {
      CbcPlainBlock(p, key, first, rest, i - 1);
      ShiftedBlocks(head, CbcDecrypt(p, key, first, rest), i - 1);
      ShiftedBlocks(first, rest, i - 1);
      ShiftedBlocks(iv, ct, i - 1);
    }
  }

  lemma {:induction false} CbcTextUnique(p: Primitives, key: Key, padded: bytes, a: bytes, b: bytes, i: nat)
    requires CbcText(p, key, padded, a) && CbcText(p, key, padded, b) && a[..16] == b[..16]
    requires i <= |padded| / 16
    ensures BlockAt(a, i) == BlockAt(b, i)
  {
    hide Xored;
    if i > 0 {
      CbcTextUnique(p, key, padded, a, b, i - 1);
      assert BlockAt(a, i - 1 + 1) == p.encryptBlock(key, Xored(BlockAt(padded, i - 1), BlockAt(a, i - 1)));
      assert BlockAt(b, i - 1 + 1) == p.encryptBlock(key, Xored(BlockAt(padded, i - 1), BlockAt(b, i - 1)));
    }
  }

  lemma {:induction false} SameBlocks(a: bytes, b: bytes)
    requires |a| == |b| && |a| % 16 == 0
    requires forall i :: 0 <= i < |a| / 16 ==> BlockAt(a, i) == BlockAt(b, i)
    ensures a == b
  {
    forall j | 0 <= j < |a| ensures a[j] == b[j] {
      assert BlockAt(a, j / 16)[j % 16] == a[j] && BlockAt(b, j / 16)[j % 16] == b[j];
    }
  }

  /** Sealing gives iv and the padded text in chained blocks, and nothing else. */
  lemma {:induction false} CbcSealed(p: Primitives, key: Key, iv: Block, plain: bytes, padded: bytes, sealed: bytes)
    requires |plain| < 0x8000_0000 && Padded(plain, padded)
    ensures Sealed(p, Aes256Cbc, key, iv, plain) == Ok(sealed)
            <==> CbcText(p, key, padded, sealed) && sealed[..16] == iv
  {
    hide CbcEncrypt, BlockAt, Xored, Padded, Pad;
    PadIsPadded(plain, padded);
    assert plain[..|plain|] == plain;
    var made := iv + CbcEncrypt(p, key, iv, padded);
    assert made + [] == made && made[..16] == iv;
    forall i | 0 <= i < |padded| / 16
      ensures BlockAt(made, i + 1) == p.encryptBlock(key, Xored(BlockAt(padded, i), BlockAt(made, i)))
    {
      CbcIsText(p, key, iv, padded, i);
    }
    assert CbcText(p, key, padded, made);
    if CbcText(p, key, padded, sealed) && sealed[..16] == iv {
      forall i | 0 <= i < |sealed| / 16 ensures BlockAt(sealed, i) == BlockAt(made, i) {
        CbcTextUnique(p, key, padded, sealed, made, i);
      }
      SameBlocks(sealed, made);
    }
  }

  /** Every block is decrypted and combined with the one in front of it. */
  ghost predicate CbcPlain(p: Primitives, key: Key, padded: bytes, sealed: bytes) {
    && |padded| % 16 == 0 && |sealed| == 16 + |padded|
    && forall i :: 0 <= i < |padded| / 16 ==>
         BlockAt(padded, i) == Xored(p.decryptBlock(key, BlockAt(sealed, i + 1)), BlockAt(sealed, i))
  }

  /** The last bytes of the block give their own number. */
  predicate WellPadded(b: Block) {
    1 <= b[15] <= 16 && forall i :: 16 - b[15] <= i < 16 ==> b[i] == b[15]
  }

  /** A text is opened exactly if it has whole blocks, at least one, and the last of them ends in
      well-formed padding, and then to all blocks without the padding. */
  lemma {:induction false} CbcOpened(p: Primitives, key: Key, sealed: bytes)
    requires |sealed| >= 16 && IntSize(|sealed| - 16) >= 0
    ensures var n := IntSize(|sealed| - 16);
            var r := Opened(p, Aes256Cbc, key, sealed);
            && (r.Ok? <==> && n > 0 && n % 16 == 0
                           && WellPadded(Xored(p.decryptBlock(key, sealed[n..n + 16]), sealed[n - 16..n])))
            && (r.Ok? ==> exists padded ::
                  && |padded| == n && Padded(r.value, padded) && CbcPlain(p, key, padded, sealed[..16 + n]))
            && (r.Err? ==> r == Err(BadTagOrPadding))
  {
    hide CbcDecrypt, Xored, IntSize, Padded, CbcPlain, WellPadded, Unpad, BlockAt;
    var n := IntSize(|sealed| - 16);
    var iv, ct := sealed[..16], sealed[16..16 + n];
    var rest := sealed[16..];
    assert rest[..|rest| - 0][..n] == ct;
    CbcNoBlocks(ct);
    if n > 0 && n % 16 == 0 {
      var padded := CbcDecrypt(p, key, iv, ct);
      assert iv + ct == sealed[..16 + n];
      CbcDecrypted(p, key, iv, ct);
      LastDecrypted(p, key, padded, sealed[..16 + n]);
      assert sealed[..16 + n][n..] == sealed[n..n + 16] && sealed[..16 + n][n - 16..n] == sealed[n - 16..n];
      UnpadAccepts(padded);
      if Unpad(padded).Some? {
        UnpadIsPadded(Unpad(padded).value, padded);
      }
    }
  }

  lemma {:induction false} CbcNoBlocks(ct: bytes)
    ensures |ct| == 0 ==> Unpad([]) == None && ct == []
    ensures forall p: Primitives, key: Key, iv: Block :: CbcDecrypt(p, key, iv, []) == []
  {
  }

  lemma {:induction false} CbcDecrypted(p: Primitives, key: Key, iv: Block, ct: bytes)
    requires |ct| % 16 == 0
    ensures CbcPlain(p, key, CbcDecrypt(p, key, iv, ct), iv + ct)
  {
    hide CbcDecrypt, Xored, BlockAt;
    forall i | 0 <= i < |ct| / 16
      ensures BlockAt(CbcDecrypt(p, key, iv, ct), i)
           == Xored(p.decryptBlock(key, BlockAt(iv + ct, i + 1)), BlockAt(iv + ct, i))
    {
      CbcPlainBlock(p, key, iv, ct, i);
    }
  }

  lemma {:induction false} LastDecrypted(p: Primitives, key: Key, padded: bytes, sealed: bytes)
    requires CbcPlain(p, key, padded, sealed) && |padded| > 0
    ensures var n := |padded|;
            padded[n - 16..] == Xored(p.decryptBlock(key, sealed[n..]), sealed[n - 16..n])
  {
    hide Xored;
    var n := |padded|;
    var last := n / 16 - 1;
    assert BlockAt(padded, last) == padded[n - 16..];
    assert BlockAt(sealed, last + 1) == sealed[n..];
    assert BlockAt(sealed, last) == sealed[n - 16..n];
  }

  lemma {:induction false} UnpadAccepts(d: bytes)
    requires |d| % 16 == 0 && |d| > 0
    ensures Unpad(d).Some? <==> WellPadded(d[|d| - 16..])
  {
  }

  lemma {:induction false} CbcRefused(p: Primitives, key: Key, sealed: bytes)
    requires |sealed| < 16 || IntSize(|sealed| - 16) < 0
    ensures Opened(p, Aes256Cbc, key, sealed) == Err(if |sealed| < 16 then BadTagOrPadding else CipherFailed)
  {
    hide CbcDecrypt, IntSize;
  }

  // ---------- Keys of a channel ----------

  /** Without a shared secret nothing is encrypted or decrypted. */
  lemma {:induction false} NoSecret(
      p: Primitives, ch: ChannelEncryption, t: EncryptType, text: bytes, pubkey: Key, random: bytes)
    requires |random| == RandomLength(t) && p.scalarMult(ch.privateKey, pubkey) == None
    ensures Encrypted(p, ch, t, text, pubkey, random) == Err(SharedKeyFailed)
    ensures Decrypted(p, ch, t, text, pubkey).Err?
  {
  }

  /** The OpenSSL ciphers ignore the role: aes-gcm is keyed by the HMAC of the shared secret with
      the salt "LOKI", aes-cbc by the secret itself. */
  lemma {:induction false} OpensslKeys(
      p: Primitives, ch: ChannelEncryption, pubkey: Key, secret: Key, salt: bytes, text: bytes, random: bytes)
    requires p.scalarMult(ch.privateKey, pubkey) == Some(secret) && Spelled(salt, "LOKI")
    ensures |random| == 12 ==>
              Encrypted(p, ch, AesGcm, text, pubkey, random)
              == Sealed(p, Aes256Gcm, p.hmacSha256(salt, secret), random, text)
    ensures Decrypted(p, ch, AesGcm, text, pubkey) == Opened(p, Aes256Gcm, p.hmacSha256(salt, secret), text)
    ensures |random| == 16 ==>
              Encrypted(p, ch, AesCbc, text, pubkey, random) == Sealed(p, Aes256Cbc, secret, random, text)
    ensures Decrypted(p, ch, AesCbc, text, pubkey) == Opened(p, Aes256Cbc, secret, text)
  {
    hide Sealed, Opened;
    LabelsSpelled();
    SpelledOnce(salt, LOKI, "LOKI");
  }

  /** 96 bytes: the shared secret, the client's public key, the server's public key. */
  predicate Transcript(t: bytes, secret: Key, client: Key, server: Key) {
    |t| == 96 && t[..32] == secret && t[32..64] == client && t[64..] == server
  }

  /** xchacha20 is keyed by the hash of secret, client key and server key in this order; the nonce
      goes in front of the sealed text. */
  lemma {:induction false} XChaChaWire(
      p: Primitives, ch: ChannelEncryption, pubkey: Key, secret: Key, t: bytes, plain: bytes, nonce: Nonce, text: bytes)
    requires p.scalarMult(ch.privateKey, pubkey) == Some(secret)
    requires if ch.server then Transcript(t, secret, pubkey, ch.publicKey)
             else Transcript(t, secret, ch.publicKey, pubkey)
    ensures Encrypted(p, ch, XChaCha20, plain, pubkey, nonce) == Ok(text)
            <==> |text| >= 24 && text[..24] == nonce && text[24..] == p.seal(p.blake2b(t), nonce, plain)
    ensures Decrypted(p, ch, XChaCha20, text, pubkey) == Ok(plain)
            <==> |text| >= 24 + 16 && p.open(p.blake2b(t), text[..24], text[24..]) == Some(plain)
    ensures Decrypted(p, ch, XChaCha20, text, pubkey) == Err(TooShort) <==> |text| < 24 + 16
  {
    assert t == t[..32] + t[32..64] + t[64..];
    if |text| >= 24 {
      assert text == text[..24] + text[24..];
    }
    var made := nonce + p.seal(p.blake2b(t), nonce, plain);
    assert made[..24] == nonce && made[24..] == p.seal(p.blake2b(t), nonce, plain);
  }
}
