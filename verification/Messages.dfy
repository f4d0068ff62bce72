/** The layout of messages and which of them a hop and a maker accept, stated on the bytes and on
    what decryption yields. */
module Messages {
  import opened Wrappers
  import opened Bytes
  import opened Labels
  import opened Encodings
  import opened Json
  import opened KeyTypes
  import opened Primitives
  import opened ChannelEncryptions
  import opened WireFormats
  import opened OnionMakers
  import opened Junks

  // ---------- Layout ----------

  /** Four bytes as an unsigned integer, least significant byte first. */
  function Size32(b: bytes): (n: nat)
    requires |b| == 4
    ensures n < TWO_32
  {
    (b[0] as int) + 0x100 * (b[1] as int) + 0x1_0000 * (b[2] as int) + 0x100_0000 * (b[3] as int)
  }

  lemma {:induction false} SizeOfBytes(b: bytes)
    requires |b| == 4
    ensures FromLE(b) == Size32(b)
  {
    assert FromLE(b[3..]) == b[3] + 256 * FromLE(b[3..][1..]) == b[3];
    assert b[2..][1..] == b[3..] && b[1..][1..] == b[2..];
    assert FromLE(b[2..]) == b[2] + 256 * FromLE(b[3..]);
    assert FromLE(b[1..]) == b[1] + 256 * FromLE(b[2..]);
  }

  /** A frame: the size of the ciphertext, the ciphertext, the printed metadata. */
  lemma {:induction false} FrameLayout(ciphertext: bytes, metadata: Members, data: bytes)
    ensures data == Frame(ciphertext, metadata)
            <==> var n := |ciphertext|;
                 && |data| >= 4 + n
                 && Size32(data[..4]) == n % TWO_32
                 && data[4..4 + n] == ciphertext
                 && data[4 + n..] == Dump(metadata)
  {
    hide FromLE, Dump;
    var n := |ciphertext|;
    var f := Frame(ciphertext, metadata);
    assert f[..4] == EncodeSize(n) && f[4..4 + n] == ciphertext && f[4 + n..] == Dump(metadata);
    SizeOfBytes(f[..4]);
    if |data| >= 4 + n && Size32(data[..4]) == n % TWO_32 {
      SizeOfBytes(data[..4]);
      FromLEInjective(data[..4], EncodeSize(n));
      assert data == data[..4] + data[4..4 + n] + data[4 + n..];
    }
  }

  /** The innermost plaintext: the size of the payload, the payload, the control data. */
  lemma {:induction false} CoreLayout(payload: bytes, control: bytes, data: bytes)
    ensures data == Core(payload, control)
            <==> var n := |payload|;
                 && |data| >= 4 + n
                 && Size32(data[..4]) == n % TWO_32
                 && data[4..4 + n] == payload
                 && data[4 + n..] == control
  {
    hide FromLE;
    var n := |payload|;
    var f := Core(payload, control);
    assert f[..4] == EncodeSize(n) && f[4..4 + n] == payload && f[4 + n..] == control;
    SizeOfBytes(f[..4]);
    if |data| >= 4 + n && Size32(data[..4]) == n % TWO_32 {
      SizeOfBytes(data[..4]);
      FromLEInjective(data[..4], EncodeSize(n));
      assert data == data[..4] + data[4..4 + n] + data[4 + n..];
    }
  }

  // ---------- What a hop accepts ----------

  /** The names of a type, printed or alias. */
  predicate Names(name: bytes, t: EncryptType) {
    match t
    case XChaCha20 => Spelled(name, "xchacha20") || Spelled(name, "xchacha20-poly1305")
    case AesGcm => Spelled(name, "aes-gcm") || Spelled(name, "gcm")
    case AesCbc => Spelled(name, "aes-cbc") || Spelled(name, "cbc")
  }

  lemma {:induction false} NamesParse(name: bytes, t: EncryptType)
    ensures ParseEncType(name) == Ok(t) <==> Names(name, t)
  {
    hide Spelled, ParseEncType;
    TypesSpelled();
    ParseEncTypeInverse(t, name);
    match t
    case XChaCha20 =>
      OneSpelling(name, XCHACHA20, "xchacha20");
      OneSpelling(name, XCHACHA20_POLY1305, "xchacha20-poly1305");
    case AesGcm =>
      OneSpelling(name, AES_GCM, "aes-gcm");
      OneSpelling(name, GCM, "gcm");
    case AesCbc =>
      OneSpelling(name, AES_CBC, "aes-cbc");
      OneSpelling(name, CBC, "cbc");
  }

  lemma {:induction false} OneSpelling(name: bytes, known: bytes, text: string)
    requires Spelled(known, text)
    ensures Spelled(name, text) <==> name == known
  {
    if Spelled(name, text) {
      SpelledOnce(name, known, text);
    }
  }

  /** The type that metadata asks for: the one it names, and aes-gcm if it names none. */
  predicate AsksFor(m: Value, t: EncryptType) {
    match Lookup(m, ENC_TYPE)
    case None => t == AesGcm
    case Some(String(name)) => Names(name, t)
    case Some(_) => false
  }

  lemma {:induction false} AskedType(m: Value, t: EncryptType)
    ensures KeytypeOf(m) == Ok(t) <==> AsksFor(m, t)
  {
    hide Names, ParseEncType;
    match Lookup(m, ENC_TYPE)
    case Some(String(name)) => NamesParse(name, t);
    case _ =>
  }

  /** A message gives this result exactly if it holds its size, a ciphertext of that size and
      JSON with a key and a type, and the ciphertext decrypts under them for the server. */
  lemma {:induction false} JunkAccepted(p: Primitives, publicKey: Key, privateKey: Key, data: bytes, junk: Junk)
    ensures ParsedJunk(p, publicKey, privateKey, data) == Ok(junk)
            <==> && |data| >= 4
                 && var n := Size32(data[..4]);
                 && n <= |data| - 4
                 && Parse(data[4 + n..]).Some?
                 && var m := Parse(data[4 + n..]).value;
                 && AsksFor(m, junk.reply.keytype)
                 && Lookup(m, EPHEMERAL_KEY).Some? && Lookup(m, EPHEMERAL_KEY).value.String?
                 && junk.reply.channel == ChannelEncryption(privateKey, publicKey, true)
                 && junk.reply.remote == ParsedPubkey(Lookup(m, EPHEMERAL_KEY).value.text)
                 && Decrypted(p, junk.reply.channel, junk.reply.keytype, data[4..4 + n], junk.reply.remote)
                    == Ok(junk.payload)
  {
    hide FromLE, Parse, AsksFor, KeytypeOf, ParsedPubkey, Decrypted, Lookup;
    if |data| >= 4 {
      SizeOfBytes(data[..4]);
      var n := Size32(data[..4]);
      if n <= |data| - 4 && Parse(data[4 + n..]).Some? {
        var m := Parse(data[4 + n..]).value;
        AskedType(m, junk.reply.keytype);
      }
    }
  }

  /** Which error every other message gives, in the order of the checks. */
  lemma {:induction false} JunkRefused(p: Primitives, publicKey: Key, privateKey: Key, data: bytes)
    ensures var r := ParsedJunk(p, publicKey, privateKey, data);
            if |data| < 4 then r == Err(JunkTooSmall)
            else
              var n := Size32(data[..4]);
              if |data| - 4 < n then r == Err(TooShort)
              else if Parse(data[4 + n..]).None? then r == Err(BadMetadata)
              else
                var m := Parse(data[4 + n..]).value;
                var name, text := Lookup(m, ENC_TYPE), Lookup(m, EPHEMERAL_KEY);
                if forall t :: !AsksFor(m, t) then
                  r == Err(if name.Some? && name.value.String? then UnknownEncryptType else NotText)
                else if text.None? then r == Err(NoEphemeralKey)
                else if !text.value.String? then r == Err(NotText)
                else
                  forall t :: AsksFor(m, t) ==>
                    var plain := Decrypted(p, ChannelEncryption(privateKey, publicKey, true), t, data[4..4 + n],
                                           ParsedPubkey(text.value.text));
                    plain.Err? ==> r == Err(plain.error)
  {
    hide FromLE, Parse, AsksFor, KeytypeOf, ParsedPubkey, Decrypted, Lookup;
    if |data| >= 4 {
      SizeOfBytes(data[..4]);
      var n := Size32(data[..4]);
      if n <= |data| - 4 && Parse(data[4 + n..]).Some? {
        var m := Parse(data[4 + n..]).value;
        forall t ensures KeytypeOf(m) == Ok(t) <==> AsksFor(m, t) {
          AskedType(m, t);
        }
        KeytypeErrors(m);
      }
    }
  }

  lemma {:induction false} KeytypeErrors(m: Value)
    ensures KeytypeOf(m).Err? ==>
              var name := Lookup(m, ENC_TYPE);
              KeytypeOf(m) == Err(if name.Some? && name.value.String? then UnknownEncryptType else NotText)
  {
  }

  /** Metadata without a type means aes-gcm: what a client encrypted so is decrypted, and the reply
      will be encrypted so too. */
  lemma {:induction false} DefaultIsGcm(
      p: Primitives, a: Key, sec: Key, plain: bytes, random: bytes, ct: bytes, m: Value, text: bytes, data: bytes)
    requires p.Lawful() && |random| == 12 && |plain| < 0x8000_0000
    requires Encrypted(p, EndOf(p, a, false), AesGcm, plain, p.basePoint(sec), random) == Ok(ct)
    requires Unframed(data) == Ok((ct, m))
    requires Lookup(m, ENC_TYPE).None?
    requires Lookup(m, EPHEMERAL_KEY) == Some(String(text)) && Encodes(text, p.basePoint(a))
    ensures var A, B := p.basePoint(a), p.basePoint(sec);
            ParsedJunk(p, B, sec, data)
            == Ok(Junk(plain, ReplyEncrypter(ChannelEncryption(sec, B, true), AesGcm, A)))
  {
    hide Encrypted, Decrypted, Unframed, Encodes, Lookup;
    ParseEncodedKey(text, p.basePoint(a));
    ChannelRoundTrip(p, AesGcm, a, sec, false, plain, random);
  }

  // ---------- Roles ----------

  /** In an xchacha20 layer the maker is the client: the key is the hash of secret, ephemeral key
      and the hop's key. */
  lemma {:induction false} LayerWire(
      p: Primitives, hop: SNodeInfo, plain: bytes, rnd: LayerRandom, secret: Key, t: bytes, blob: bytes)
    requires |rnd.random| == 24 && p.scalarMult(rnd.seckey, hop.onion) == Some(secret)
    requires Transcript(t, secret, p.basePoint(rnd.seckey), hop.onion)
    ensures Wrap(p, XChaCha20, hop, plain, rnd) == Ok(Layered(blob, p.basePoint(rnd.seckey)))
            <==> && |blob| >= 24 && blob[..24] == rnd.random
                 && blob[24..] == p.seal(p.blake2b(t), rnd.random, plain)
  {
    hide Encrypted, Transcript;
    XChaChaWire(p, EndOf(p, rnd.seckey, false), hop.onion, secret, t, plain, rnd.random, blob);
  }

  /** In the reply the key order is the same: the remote key first, then the hop's. */
  lemma {:induction false} ReplyWire(
      p: Primitives, e: ReplyEncrypter, plain: bytes, random: bytes, secret: Key, t: bytes, text: bytes)
    requires e.keytype == XChaCha20 && e.channel.server && |random| == 24
    requires p.scalarMult(e.channel.privateKey, e.remote) == Some(secret)
    requires Transcript(t, secret, e.remote, e.channel.publicKey)
    ensures e.Transform(p, plain, random) == Ok(text)
            <==> |text| >= 24 && text[..24] == random && text[24..] == p.seal(p.blake2b(t), random, plain)
  {
    hide Encrypted, Transcript;
    XChaChaWire(p, e.channel, e.remote, secret, t, plain, random, text);
  }

  // ---------- What a maker accepts as a reply ----------

  /** The handler returns a text exactly if the body, or else the content of a base64 body,
      decrypts to it. */
  lemma {:induction false} ReplyAccepted(p: Primitives, d: ReplyDecrypter, body: bytes, x: bytes)
    ensures var raw := Decrypted(p, d.channel, d.keytype, body, d.finalKey);
            Handled(p, d, body) == Some(x)
            <==> || raw == Ok(x)
                 || (&& raw.Err? && IsBase64(body)
                     && Decrypted(p, d.channel, d.keytype, FromBase64(body), d.finalKey) == Ok(x))
  {
    hide Decrypted, IsBase64, FromBase64;
  }

  /** It returns nothing exactly if neither of them decrypts. */
  lemma {:induction false} ReplyRefused(p: Primitives, d: ReplyDecrypter, body: bytes)
    ensures Handled(p, d, body) == None
            <==> && Decrypted(p, d.channel, d.keytype, body, d.finalKey).Err?
                 && (IsBase64(body) ==>
                       Decrypted(p, d.channel, d.keytype, FromBase64(body), d.finalKey).Err?)
  {
    hide Decrypted, IsBase64, FromBase64;
  }
}
