/** A hop's side of an onion request (onionreq/junk.cpp). */
module Junks {
  import opened Wrappers
  import opened Bytes
  import opened Labels
  import opened Json
  import opened KeyTypes
  import opened Primitives
  import opened ChannelEncryptions

  /** What `transformReply` captures. */
  datatype ReplyEncrypter = ReplyEncrypter(channel: ChannelEncryption, keytype: EncryptType, remote: Key) {
    function Transform(p: Primitives, plaintext: bytes, random: bytes): (r: Result<bytes>)
      requires |random| == RandomLength(keytype)
    {
      Encrypted(p, channel, keytype, plaintext, remote, random)
    }
  }

  datatype Junk = Junk(payload: bytes, reply: ReplyEncrypter)

  function DecodeSize(data: bytes): (r: Result<nat>)
    ensures r == Err(JunkTooSmall) <==> |data| < 4
    ensures |data| >= 4 ==> r.Ok? && r.value < TWO_32 && ToLE(r.value, 4) == data[..4]
  {
    Pow256Of4();
    if |data| >= 4 then ToLEFromLE(data[..4]); Ok(FromLE(data[..4]))
    else Err(JunkTooSmall)
  }

  /** Ciphertext and metadata of a framed message. */
  function Unframed(data: bytes): (r: Result<(bytes, Value)>) {
    match DecodeSize(data)
    case Err(e) => Err(e)
    case Ok(size) =>
      if |data| - 4 < size then Err(TooShort)
      else match Parse(data[4 + size..])
        case None => Err(BadMetadata)
        case Some(metadata) => Ok((data[4..4 + size], metadata))
  }

  /** The encryption type the metadata names; aes-gcm if it names none. */
  function KeytypeOf(metadata: Value): (r: Result<EncryptType>) {
    match Lookup(metadata, ENC_TYPE)
    case Some(String(name)) => ParseEncType(name)
    case Some(_) => Err(NotText)
    case None => Ok(AesGcm)
  }

  function RemoteOf(metadata: Value): (r: Result<Key>) {
    match Lookup(metadata, EPHEMERAL_KEY)
    case Some(String(text)) => Ok(ParsedPubkey(text))
    case Some(_) => Err(NotText)
    case None => Err(NoEphemeralKey)
  }

  function ParsedJunk(p: Primitives, publicKey: Key, privateKey: Key, data: bytes): (r: Result<Junk>) {
    match Unframed(data)
    case Err(e) => Err(e)
    case Ok((ciphertext, metadata)) =>
      match KeytypeOf(metadata)
      case Err(e) => Err(e)
      case Ok(keytype) =>
        match RemoteOf(metadata)
        case Err(e) => Err(e)
        case Ok(remote) =>
          var enc := ChannelEncryption(privateKey, publicKey, true);
          match Decrypted(p, enc, keytype, ciphertext, remote)
          case Err(e) => Err(e)
          case Ok(payload) => Ok(Junk(payload, ReplyEncrypter(enc, keytype, remote)))
  }

  /** Consumes the message from the front. */
  method ParseJunk(p: Primitives, publicKey: Key, privateKey: Key, message: bytes) returns (r: Result<Junk>)
    requires p.LawfulCiphers()
    ensures r == ParsedJunk(p, publicKey, privateKey, message)
  {
    var data := message;
    var size := DecodeSize(data);
    if size.Err? {
      return Err(size.error);
    }
    data := data[4..];
    if |data| < size.value {
      return Err(TooShort);
    }
    var ciphertext := data[..size.value];
    data := data[size.value..];
    assert data == message[4 + size.value..] && ciphertext == message[4..4 + size.value];
    var metadata := Parse(data);
    if metadata.None? {
      return Err(BadMetadata);
    }
    var keytype := AesGcm;
    var name := Lookup(metadata.value, ENC_TYPE);
    if name.Some? {
      if !name.value.String? {
        return Err(NotText);
      }
      var parsed := ParseEncType(name.value.text);
      if parsed.Err? {
        return Err(parsed.error);
      }
      keytype := parsed.value;
    }
    var text := Lookup(metadata.value, EPHEMERAL_KEY);
    if text.None? {
      return Err(NoEphemeralKey);
    }
    if !text.value.String? {
      return Err(NotText);
    }
    var remote := ParsePubkey(text.value.text);
    var enc := ChannelEncryption(privateKey, publicKey, true);
    var payload := Decrypt(p, enc, keytype, ciphertext, remote[..]);
    if payload.Err? {
      return Err(payload.error);
    }
    r := Ok(Junk(payload.value, ReplyEncrypter(enc, keytype, remote[..])));
  }

  /** A message whose `ephemeral_key` is in none of the accepted forms is always rejected. */
  lemma {:induction false} MalformedKeyRejected(
      p: Primitives, publicKey: Key, privateKey: Key, data: bytes, text: bytes)
    requires p.LawfulCurve()
    requires Unframed(data).Ok? && Lookup(Unframed(data).value.1, EPHEMERAL_KEY) == Some(String(text))
    requires DecodedText(text).None?
    ensures ParsedJunk(p, publicKey, privateKey, data).Err?
  {
    assert ParsedPubkey(text) == NULL_KEY;
    assert p.scalarMult(privateKey, NULL_KEY) == None;
  }
}
