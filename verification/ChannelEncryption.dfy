/** Encryption between a client and a service node (onionreq/channel_encryption.cpp). */
module ChannelEncryptions {
  import opened Wrappers
  import opened Bytes
  import opened Labels
  import opened Buffers
  import opened Primitives
  import opened Evp

  datatype EncryptType = AesCbc | AesGcm | XChaCha20

  // ---------- Names ----------

  function ToString(t: EncryptType): (name: bytes) {
    match t
    case XChaCha20 => XCHACHA20
    case AesGcm => AES_GCM
    case AesCbc => AES_CBC
  }

  function ParseEncType(name: bytes): (t: Result<EncryptType>) {
    if name == XCHACHA20 || name == XCHACHA20_POLY1305 then Ok(XChaCha20)
    else if name == AES_GCM || name == GCM then Ok(AesGcm)
    else if name == AES_CBC || name == CBC then Ok(AesCbc)
    else Err(UnknownEncryptType)
  }

  /** The other name of a type. */
  function Alias(t: EncryptType): (name: bytes) {
    match t
    case XChaCha20 => XCHACHA20_POLY1305
    case AesGcm => GCM
    case AesCbc => CBC
  }

  /** A name stands for a type exactly if it is the printed name or the alias of that type, and
      for none otherwise. */
  lemma {:induction false} ParseEncTypeInverse(t: EncryptType, name: bytes)
    ensures ParseEncType(name) == Ok(t) <==> name == ToString(t) || name == Alias(t)
    ensures ParseEncType(name) == Err(UnknownEncryptType)
            <==> forall u :: name != ToString(u) && name != Alias(u)
  {
    assert AES_GCM[4] != AES_CBC[4] && GCM[0] != CBC[0];
    assert |XCHACHA20| == 9 && |XCHACHA20_POLY1305| == 18 && |AES_GCM| == |AES_CBC| == 7 && |GCM| == |CBC| == 3;
    assert ToString(XChaCha20) == XCHACHA20 && ToString(AesGcm) == AES_GCM && ToString(AesCbc) == AES_CBC;
  }

  // ---------- Keys ----------

  function SharedSecret(p: Primitives, seckey: Key, pubkey: Key): (r: Result<Key>) {
    match p.scalarMult(seckey, pubkey)
    case Some(s) => Ok(s)
    case None => Err(SharedKeyFailed)
  }

  function SymmetricKey(p: Primitives, seckey: Key, pubkey: Key): (r: Result<Key>) {
    match SharedSecret(p, seckey, pubkey)
    case Ok(s) => Ok(p.hmacSha256(LOKI, s))
    case Err(e) => Err(e)
  }

  /** H(secret || client key || server key). */
  function XChaChaKey(p: Primitives, secret: Key, client: Key, server: Key): (k: Key) {
    p.blake2b(secret + client + server)
  }

  /** The secret is hashed in the buffer that held it. */
  method DeriveSymmetricKey(p: Primitives, seckey: Key, pubkey: Key)
    returns (r: Result<()>, key: array<byte>)
    ensures fresh(key) && key.Length == 32
    ensures match SymmetricKey(p, seckey, pubkey)
            case Ok(k) => r == Ok(()) && key[..] == k
            case Err(e) => r == Err(e)
  {
    key := new byte[32](_ => 0);
    var s := SharedSecret(p, seckey, pubkey);
    if s.Err? {
      return Err(s.error), key;
    }
    WriteAt(key, 0, s.value);
    assert key[..] == s.value;
    WriteAt(key, 0, p.hmacSha256(LOKI, key[..]));
    assert key[..] == p.hmacSha256(LOKI, s.value);
    r := Ok(());
  }

  /** The key buffer holds the shared secret before it holds the hash. */
  method XChaCha20SharedKey(p: Primitives, localPub: Key, localSec: Key, remotePub: Key, localFirst: bool)
    returns (r: Result<()>, key: array<byte>)
    ensures fresh(key) && key.Length == 32
    ensures match SharedSecret(p, localSec, remotePub)
            case Err(e) => r == Err(e)
            case Ok(s) =>
              && r == Ok(())
              && key[..] == if localFirst then XChaChaKey(p, s, localPub, remotePub)
                            else XChaChaKey(p, s, remotePub, localPub)
  {
    key := new byte[32](_ => 0);
    var s := SharedSecret(p, localSec, remotePub);
    if s.Err? {
      return Err(s.error), key;
    }
    WriteAt(key, 0, s.value);
    assert key[..] == s.value;
    var hashed := key[..];
    hashed := hashed + if localFirst then localPub else remotePub;
    hashed := hashed + if localFirst then remotePub else localPub;
    WriteAt(key, 0, p.blake2b(hashed));
    assert key[..] == p.blake2b(hashed);
    r := Ok(());
  }

  // ---------- OpenSSL ciphers ----------

  /** A size passed as a C `int`. */
  function IntSize(n: nat): (i: int)
    ensures -0x8000_0000 <= i < 0x8000_0000
    ensures i <= n
    ensures 0 <= i == n <==> n < 0x8000_0000
    ensures (n - i) % TWO_32 == 0
  {
    (n + 0x8000_0000) % TWO_32 - 0x8000_0000
  }

  function CipherBody(p: Primitives, cipher: Cipher, key: Key, iv: bytes, data: bytes): (ct: bytes)
    requires |iv| == cipher.IvLength()
    ensures |ct| == if cipher == Aes256Cbc then 16 * (|data| / 16 + 1) else |data|
  {
    if cipher == Aes256Cbc then CbcEncrypt(p, key, iv, Pad(data)) else CtrXor(p, key, iv, 0, data)
  }

  function CipherTag(p: Primitives, cipher: Cipher, key: Key, iv: bytes, ct: bytes): (t: bytes)
    ensures |t| == cipher.TagLength()
  {
    if cipher == Aes256Cbc then [] else p.gcmTag(key, iv, ct)
  }

  /** iv, ciphertext and tag; a plaintext whose size does not fit a C `int` is cut or refused. */
  function Sealed(p: Primitives, cipher: Cipher, key: Key, iv: bytes, plaintext: bytes): (r: Result<bytes>)
    requires |iv| == cipher.IvLength()
  {
    var n := IntSize(|plaintext|);
    if n < 0 then Err(CipherFailed)
    else
      var ct := CipherBody(p, cipher, key, iv, plaintext[..n]);
      Ok(iv + ct + CipherTag(p, cipher, key, iv, ct))
  }

  function OpenBody(p: Primitives, cipher: Cipher, key: Key, iv: bytes, ct: bytes, tag: bytes): (r: Option<bytes>)
    requires |iv| == cipher.IvLength()
  {
    if cipher == Aes256Gcm then
      if p.gcmTag(key, iv, ct) == tag then Some(CtrXor(p, key, iv, 0, ct)) else None
    else if |ct| % 16 != 0 then None
    else Unpad(CbcDecrypt(p, key, iv, ct))
  }

  function Opened(p: Primitives, cipher: Cipher, key: Key, sealed: bytes): (r: Result<bytes>) {
    var ivLength := cipher.IvLength();
    if |sealed| < ivLength + cipher.TagLength() then
      if cipher == Aes256Gcm then Err(TooShort) else Err(BadTagOrPadding)
    else
      var iv, rest := sealed[..ivLength], sealed[ivLength..];
      var body, tag := rest[..|rest| - cipher.TagLength()], rest[|rest| - cipher.TagLength()..];
      var n := IntSize(|body|);
      if n < 0 then Err(CipherFailed)
      else match OpenBody(p, cipher, key, iv, body[..n], tag)
        case Some(data) => Ok(data)
        case None => Err(BadTagOrPadding)
  }

  ghost predicate Fresh(ctx: Context)
    reads ctx
  {
    && ctx.Valid()
    && ctx.pending == [] && ctx.held == None && ctx.position == 0 && ctx.authenticated == []
    && (ctx.cipher == Aes256Cbc && |ctx.iv| == 16 ==> ctx.chain == ctx.iv)
  }

  /** Update and Final on a new context; returns the cursor. */
  method EncryptBody(ctx: Context, output: array<byte>, pos: nat, data: bytes) returns (o: nat)
    requires Fresh(ctx) && |ctx.iv| == ctx.cipher.IvLength()
    requires pos + |data| + ctx.cipher.BlockSize() <= output.Length
    modifies ctx, output
    ensures var ct := CipherBody(ctx.prim, ctx.cipher, ctx.key, ctx.iv, data);
            && o == pos + |ct|
            && output[..] == Splice(old(output[..]), pos, ct)
            && (ctx.cipher == Aes256Gcm ==> ctx.authenticated == ct)
  {
    hide Splice, CbcEncrypt, CtrXor, Pad;
    assert [] + data == data;
    o := pos;
    var len := ctx.EncryptUpdate(output, o, data);
    o := o + len;
    if ctx.cipher == Aes256Gcm {
      len := ctx.EncryptFinal(output, o);
      assert forall ct: bytes :: [] + ct == ct;
    } else {
      ghost var first := CbcEncrypt(ctx.prim, ctx.key, ctx.iv, data[..len]);
      ghost var second := CbcEncrypt(ctx.prim, ctx.key, ctx.chain, Pad(ctx.pending));
      CbcOneShot(ctx.prim, ctx.key, ctx.iv, data);
      SpliceSplice(output[..], pos, first, second);
      len := ctx.EncryptFinal(output, o);
      SpliceSplice(old(output[..]), pos, first, second);
    }
    o := o + len;
  }

  /** Update, SetTag and Final on a new context; returns the cursor. */
  method DecryptBody(ctx: Context, output: array<byte>, data: bytes, tag: bytes) returns (ok: bool, o: nat)
    requires Fresh(ctx) && ctx.tag == None && |tag| == ctx.cipher.TagLength()
    requires |data| + ctx.cipher.BlockSize() <= output.Length
    requires |ctx.iv| == ctx.cipher.IvLength() || (ctx.cipher == Aes256Cbc && data == [])
    modifies ctx, output
    ensures |ctx.iv| == ctx.cipher.IvLength() ==>
              match OpenBody(ctx.prim, ctx.cipher, ctx.key, ctx.iv, data, tag)
              case Some(plain) => ok && o == |plain| && output[..o] == plain
              case None => !ok
    ensures |ctx.iv| != ctx.cipher.IvLength() ==> !ok
    ensures o <= output.Length
  {
    hide Splice, CbcDecrypt, CtrXor, PaddingOf;
    assert [] + data == data;
    ghost var before := output[..];
    var len := ctx.DecryptUpdate(output, 0, data);
    o := len;
    if tag != [] {
      ctx.SetTag(tag);
    }
    ghost var updated := output[..];
    ok, len := ctx.DecryptFinal(output, o);
    if ctx.cipher == Aes256Gcm {
      SplicePrefix(before, 0, CtrXor(ctx.prim, ctx.key, ctx.iv, 0, data));
    } else if |ctx.iv| == 16 {
      CbcFinish(ctx.prim, ctx.key, ctx.iv, data);
      if ok {
        var plain := CbcDecrypt(ctx.prim, ctx.key, ctx.iv, data[..|data| / 16 * 16]);
        SplicePrefix(before, 0, plain);
        assert updated[..o] == plain[..o];
        SplicePrefix(updated, o, ctx.held.value[..len]);
      }
    }
    if ok {
      o := o + len;
    }
  }

  lemma {:induction false} TakeInTwo(s: bytes, i: nat, j: nat)
    requires i <= j <= |s|
    ensures s[..i] + s[i..][..j - i] == s[..j]
  {
  }

  /** What is left to do when every complete block has been decrypted. */
  lemma {:induction false} CbcFinish(p: Primitives, key: Key, iv: Block, data: bytes)
    ensures var n := |data| / 16 * 16;
            var plain := CbcDecrypt(p, key, iv, data[..n]);
            OpenBody(p, Aes256Cbc, key, iv, data, [])
            == if n == 0 || n < |data| then None
               else match PaddingOf(plain[n - 16..])
                 case None => None
                 case Some(k) => Some(plain[..n - 16] + plain[n - 16..][..16 - k])
  {
    var n := |data| / 16 * 16;
    if n == |data| > 0 {
      assert data[..n] == data;
      var plain := CbcDecrypt(p, key, iv, data);
      var padding := PaddingOf(plain[n - 16..]);
      if padding.Some? {
        TakeInTwo(plain, n - 16, n - padding.value);
      }
    }
  }

  /** Fills one buffer from a moving cursor and cuts it where the cursor stops. */
  method EncryptOpenssl(p: Primitives, cipher: Cipher, plaintext: bytes, key: Key, iv: bytes)
    returns (r: Result<bytes>)
    requires |iv| == cipher.IvLength()
    ensures r == Sealed(p, cipher, key, iv, plaintext)
  {
    var output := new byte[|iv| + |plaintext| + cipher.BlockSize() + cipher.TagLength()](_ => 0);
    WriteAt(output, 0, iv);
    var ctx := new Context(p, cipher, key, iv);
    var size := IntSize(|plaintext|);
    if size < 0 {
      return Err(CipherFailed);
    }
    ghost var ct := CipherBody(p, cipher, key, iv, plaintext[..size]);
    var o := EncryptBody(ctx, output, |iv|, plaintext[..size]);
    assert output[..o] == iv + ct;
    if cipher.TagLength() > 0 {
      ctx.GetTag(output, o);
    }
    o := o + cipher.TagLength();
    assert output[..o] == iv + ct + CipherTag(p, cipher, key, iv, ct);
    return Ok(output[..o]);
  }

  /** Splits off iv and tag, then decrypts into a buffer with a moving cursor. */
  method DecryptOpenssl(p: Primitives, cipher: Cipher, sealed: bytes, key: Key) returns (r: Result<bytes>)
    ensures r == Opened(p, cipher, key, sealed)
  {
    var ciphertext := sealed;
    var ivSize := if |ciphertext| < cipher.IvLength() then |ciphertext| else cipher.IvLength();
    var iv := ciphertext[..ivSize];
    ciphertext := ciphertext[ivSize..];
    if |ciphertext| < cipher.TagLength() {
      return Err(TooShort);
    }
    var tag := ciphertext[|ciphertext| - cipher.TagLength()..];
    ciphertext := ciphertext[..|ciphertext| - |tag|];
    var output := new byte[|ciphertext| + cipher.BlockSize()](_ => 0);
    var ctx := new Context(p, cipher, key, iv);
    var size := IntSize(|ciphertext|);
    if size < 0 {
      return Err(CipherFailed);
    }
    var ok, o := DecryptBody(ctx, output, ciphertext[..size], tag);
    if !ok {
      return Err(BadTagOrPadding);
    }
    return Ok(output[..o]);
  }

  // ---------- Channels ----------

  /** One end of a channel; `server` is true on the service node. */
  datatype ChannelEncryption = ChannelEncryption(privateKey: Key, publicKey: Key, server: bool)

  /** The random bytes in front of a ciphertext: an iv or a nonce. */
  function RandomLength(t: EncryptType): nat {
    match t
    case AesCbc => 16
    case AesGcm => 12
    case XChaCha20 => 24
  }

  function ChannelXKey(p: Primitives, ch: ChannelEncryption, pubkey: Key): (r: Result<Key>) {
    match SharedSecret(p, ch.privateKey, pubkey)
    case Err(e) => Err(e)
    case Ok(s) =>
      if ch.server then Ok(XChaChaKey(p, s, pubkey, ch.publicKey))
      else Ok(XChaChaKey(p, s, ch.publicKey, pubkey))
  }

  function XChaChaEncrypted(p: Primitives, ch: ChannelEncryption, plaintext: bytes, pubkey: Key, nonce: Nonce)
    : (r: Result<bytes>)
  {
    match ChannelXKey(p, ch, pubkey)
    case Err(e) => Err(e)
    case Ok(key) => Ok(nonce + p.seal(key, nonce, plaintext))
  }

  function XChaChaDecrypted(p: Primitives, ch: ChannelEncryption, ciphertext: bytes, pubkey: Key)
    : (r: Result<bytes>)
  {
    if |ciphertext| < 24 + 16 then Err(TooShort)
    else
      match ChannelXKey(p, ch, pubkey)
      case Err(e) => Err(e)
      case Ok(key) =>
        match p.open(key, ciphertext[..24], ciphertext[24..])
        case Some(data) => Ok(data)
        case None => Err(BadTagOrPadding)
  }

  function Encrypted(p: Primitives, ch: ChannelEncryption, t: EncryptType, plaintext: bytes, pubkey: Key, random: bytes)
    : (r: Result<bytes>)
    requires |random| == RandomLength(t)
  {
    match t
    case XChaCha20 => XChaChaEncrypted(p, ch, plaintext, pubkey, random)
    case AesGcm =>
      (match SymmetricKey(p, ch.privateKey, pubkey)
       case Err(e) => Err(e)
       case Ok(key) => Sealed(p, Aes256Gcm, key, random, plaintext))
    case AesCbc =>
      match SharedSecret(p, ch.privateKey, pubkey)
      case Err(e) => Err(e)
      case Ok(key) => Sealed(p, Aes256Cbc, key, random, plaintext)
  }

  function Decrypted(p: Primitives, ch: ChannelEncryption, t: EncryptType, ciphertext: bytes, pubkey: Key)
    : (r: Result<bytes>)
  {
    match t
    case XChaCha20 => XChaChaDecrypted(p, ch, ciphertext, pubkey)
    case AesGcm =>
      (match SymmetricKey(p, ch.privateKey, pubkey)
       case Err(e) => Err(e)
       case Ok(key) => Opened(p, Aes256Gcm, key, ciphertext))
    case AesCbc =>
      match SharedSecret(p, ch.privateKey, pubkey)
      case Err(e) => Err(e)
      case Ok(key) => Opened(p, Aes256Cbc, key, ciphertext)
  }

  method EncryptXChaCha20(p: Primitives, ch: ChannelEncryption, plaintext: bytes, pubkey: Key, nonce: Nonce)
    returns (r: Result<bytes>)
    requires p.LawfulCiphers()
    ensures r == XChaChaEncrypted(p, ch, plaintext, pubkey, nonce)
  {
    var ciphertext := new byte[24 + |plaintext| + 16](_ => 0);
    var made, key := XChaCha20SharedKey(p, ch.publicKey, ch.privateKey, pubkey, !ch.server);
    if made.Err? {
      return Err(made.error);
    }
    WriteAt(ciphertext, 0, nonce);
    var c := 24;
    assert ciphertext[..24] == nonce;
    var sealed := p.seal(key[..], ciphertext[..24], plaintext);
    WriteAt(ciphertext, c, sealed);
    assert ciphertext[..c + |sealed|] == nonce + sealed;
    return Ok(ciphertext[..c + |sealed|]);
  }

  method DecryptXChaCha20(p: Primitives, ch: ChannelEncryption, ciphertext: bytes, pubkey: Key)
    returns (r: Result<bytes>)
    requires p.LawfulCiphers()
    ensures r == XChaChaDecrypted(p, ch, ciphertext, pubkey)
  {
    var rest := ciphertext;
    var nonce := if |rest| < 24 then rest else rest[..24];
    rest := rest[|nonce|..];
    if |rest| < 16 {
      return Err(TooShort);
    }
    var made, key := XChaCha20SharedKey(p, ch.publicKey, ch.privateKey, pubkey, !ch.server);
    if made.Err? {
      return Err(made.error);
    }
    var plaintext := new byte[|rest| - 16](_ => 0);
    var message := p.open(key[..], nonce, rest);
    if message.None? {
      return Err(BadTagOrPadding);
    }
    WriteAt(plaintext, 0, message.value);
    assert plaintext[..|message.value|] == message.value;
    return Ok(plaintext[..|message.value|]);
  }

  method Encrypt(p: Primitives, ch: ChannelEncryption, t: EncryptType, plaintext: bytes, pubkey: Key, random: bytes)
    returns (r: Result<bytes>)
    requires p.LawfulCiphers() && |random| == RandomLength(t)
    ensures r == Encrypted(p, ch, t, plaintext, pubkey, random)
  {
    match t
    case XChaCha20 =>
      r := EncryptXChaCha20(p, ch, plaintext, pubkey, random);
    case AesGcm =>
      var made, key := DeriveSymmetricKey(p, ch.privateKey, pubkey);
      if made.Err? {
        return Err(made.error);
      }
      r := EncryptOpenssl(p, Aes256Gcm, plaintext, key[..], random);
    case AesCbc =>
      var key := SharedSecret(p, ch.privateKey, pubkey);
      if key.Err? {
        return Err(key.error);
      }
      r := EncryptOpenssl(p, Aes256Cbc, plaintext, key.value, random);
  }

  method Decrypt(p: Primitives, ch: ChannelEncryption, t: EncryptType, ciphertext: bytes, pubkey: Key)
    returns (r: Result<bytes>)
    requires p.LawfulCiphers()
    ensures r == Decrypted(p, ch, t, ciphertext, pubkey)
  {
    match t
    case XChaCha20 =>
      r := DecryptXChaCha20(p, ch, ciphertext, pubkey);
    case AesGcm =>
      var made, key := DeriveSymmetricKey(p, ch.privateKey, pubkey);
      if made.Err? {
        return Err(made.error);
      }
      r := DecryptOpenssl(p, Aes256Gcm, ciphertext, key[..]);
    case AesCbc =>
      var key := SharedSecret(p, ch.privateKey, pubkey);
      if key.Err? {
        return Err(key.error);
      }
      r := DecryptOpenssl(p, Aes256Cbc, ciphertext, key.value);
  }

  // ---------- What the two ends promise each other ----------

  /** The end that owns private key `k`. */
  function EndOf(p: Primitives, k: Key, server: bool): ChannelEncryption {
    ChannelEncryption(k, p.basePoint(k), server)
  }

  /** Both ends derive the same keys; for xchacha20 when exactly one of them is the server. */
  lemma {:induction false} KeysAgree(p: Primitives, a: Key, b: Key, server: bool)
    requires p.LawfulCurve()
    ensures var A, B := p.basePoint(a), p.basePoint(b);
            && SharedSecret(p, a, B) == SharedSecret(p, b, A)
            && SharedSecret(p, a, B).Ok?
            && SymmetricKey(p, a, B) == SymmetricKey(p, b, A)
            && ChannelXKey(p, EndOf(p, a, server), B) == ChannelXKey(p, EndOf(p, b, !server), A)
  {
    assert p.scalarMult(a, p.basePoint(b)) == p.scalarMult(b, p.basePoint(a));
    assert p.scalarMult(a, p.basePoint(b)).Some?;
  }

  /** Two ends that both claim the same role hash different transcripts. */
  lemma {:induction false} SameRoleTranscriptsDiffer(secret: Key, A: Key, B: Key)
    requires A != B
    ensures secret + A + B != secret + B + A
  {
    var x, y := secret + A + B, secret + B + A;
    assert x[32..64] == A && y[32..64] == B;
  }

  /** Whether OpenSSL can be handed the sizes of this plaintext and its ciphertext. */
  predicate FitsCipher(t: EncryptType, n: nat) {
    match t
    case XChaCha20 => true
    case AesGcm => n < 0x8000_0000
    case AesCbc => n < 0x8000_0000 - 16
  }

  /** What opening gives back of a sealed plaintext. */
  lemma {:induction false} OpenedSealed(p: Primitives, cipher: Cipher, key: Key, iv: bytes, plaintext: bytes)
    requires p.LawfulCiphers() && |iv| == cipher.IvLength()
    requires IntSize(|plaintext|) >= 0
    ensures var n := IntSize(|plaintext|);
            var sealed := Sealed(p, cipher, key, iv, plaintext).value;
            && |sealed| == |iv| + |CipherBody(p, cipher, key, iv, plaintext[..n])| + cipher.TagLength()
            && Opened(p, cipher, key, sealed)
               == if cipher == Aes256Cbc && n >= 0x8000_0000 - 16 then Err(CipherFailed) else Ok(plaintext[..n])
  {
    hide CbcEncrypt, CbcDecrypt, CtrXor, Pad, Unpad;
    var data := plaintext[..IntSize(|plaintext|)];
    var ct := CipherBody(p, cipher, key, iv, data);
    var tag := CipherTag(p, cipher, key, iv, ct);
    var sealed := iv + ct + tag;
    assert sealed[..|iv|] == iv && sealed[|iv|..] == ct + tag;
    assert (ct + tag)[..|ct|] == ct && (ct + tag)[|ct|..] == tag;
    if IntSize(|ct|) >= 0 {
      assert ct[..IntSize(|ct|)] == ct;
      if cipher == Aes256Cbc {
        CbcDecryptEncrypt(p, key, iv, Pad(data));
        UnpadPad(data);
      } else {
        CtrXorTwice(p, key, iv, 0, data);
      }
    }
  }

  /** A message reaches the other end unchanged if and only if its size fits the cipher. */
  lemma {:induction false} ChannelRoundTrip(
      p: Primitives, t: EncryptType, a: Key, b: Key, server: bool, plaintext: bytes, random: bytes)
    requires p.Lawful() && |random| == RandomLength(t)
    ensures var c := Encrypted(p, EndOf(p, a, server), t, plaintext, p.basePoint(b), random);
            FitsCipher(t, |plaintext|) <==>
              && c.Ok?
              && Decrypted(p, EndOf(p, b, !server), t, c.value, p.basePoint(a)) == Ok(plaintext)
  {
    KeysAgree(p, a, b, server);
    if t == XChaCha20 {
      var key := ChannelXKey(p, EndOf(p, a, server), p.basePoint(b)).value;
      var c := random + p.seal(key, random, plaintext);
      assert c[..24] == random && c[24..] == p.seal(key, random, plaintext);
    } else {
      var cipher := if t == AesGcm then Aes256Gcm else Aes256Cbc;
      var key :=
        if t == AesGcm then SymmetricKey(p, a, p.basePoint(b)).value
        else SharedSecret(p, a, p.basePoint(b)).value;
      var n := IntSize(|plaintext|);
      if n >= 0 {
        OpenedSealed(p, cipher, key, random, plaintext);
        assert n == |plaintext| ==> plaintext[..n] == plaintext;
      }
    }
  }

  /** The bytes a ciphertext is longer than a plaintext of `n` bytes. */
  function Overhead(t: EncryptType, n: nat): (o: nat) {
    match t
    case XChaCha20 => 24 + 16
    case AesGcm => 12 + 16
    case AesCbc => 16 + 16 - n % 16
  }

  /** Every buffer is cut to the exact size. */
  lemma {:induction false} EncryptedLength(
      p: Primitives, ch: ChannelEncryption, t: EncryptType, plaintext: bytes, pubkey: Key, random: bytes)
    requires p.LawfulCiphers() && |random| == RandomLength(t) && FitsCipher(t, |plaintext|)
    ensures var c := Encrypted(p, ch, t, plaintext, pubkey, random);
            c.Ok? ==> |c.value| == |plaintext| + Overhead(t, |plaintext|)
  {
    assert plaintext[..|plaintext|] == plaintext;
  }

  /** The least a ciphertext is longer than its plaintext; CBC padding has at least one byte. */
  function LeastOverhead(t: EncryptType): (o: nat) {
    match t
    case XChaCha20 => 24 + 16
    case AesGcm => 12 + 16
    case AesCbc => 16 + 1
  }

  lemma {:induction false} OpenedLength(p: Primitives, cipher: Cipher, key: Key, sealed: bytes)
    requires Opened(p, cipher, key, sealed).Ok?
    ensures var n := |Opened(p, cipher, key, sealed).value|;
            && n < 0x8000_0000
            && n + LeastOverhead(if cipher == Aes256Cbc then AesCbc else AesGcm) <= |sealed|
  {
    hide CtrXor, CbcDecrypt;
  }

  /** A plaintext is shorter than its ciphertext by at least the overhead, exactly so for
      xchacha20, and the OpenSSL ciphers give back less than 2^31 bytes. */
  lemma {:induction false} DecryptedLength(
      p: Primitives, ch: ChannelEncryption, t: EncryptType, ciphertext: bytes, pubkey: Key)
    requires p.LawfulCiphers() && Decrypted(p, ch, t, ciphertext, pubkey).Ok?
    ensures var n := |Decrypted(p, ch, t, ciphertext, pubkey).value|;
            && n + LeastOverhead(t) <= |ciphertext|
            && if t == XChaCha20 then n + LeastOverhead(t) == |ciphertext| else n < 0x8000_0000
  {
    hide Opened;
    match t
    case XChaCha20 =>
    case AesGcm => OpenedLength(p, Aes256Gcm, SymmetricKey(p, ch.privateKey, pubkey).value, ciphertext);
    case AesCbc => OpenedLength(p, Aes256Cbc, SharedSecret(p, ch.privateKey, pubkey).value, ciphertext);
  }
}
