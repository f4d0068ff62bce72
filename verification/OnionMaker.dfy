/** Building an onion request and reading its reply (onionreq/onion_maker.cpp). */
module OnionMakers {
  import opened Wrappers
  import opened Bytes
  import opened Labels
  import opened Encodings
  import opened Json
  import opened Primitives
  import opened ChannelEncryptions

  datatype SNodeInfo = SNodeInfo(
    identity: Key,
    onion: Key,
    publicIP: string,
    zmqPort: nat,
    httpsPort: nat
  )

  /** The hops, and the remote resource's control data as printed. */
  datatype OnionPath = OnionPath(hops: seq<SNodeInfo>, control: bytes)

  /** What `maybeDecryptResponse` captures. */
  datatype ReplyDecrypter = ReplyDecrypter(channel: ChannelEncryption, keytype: EncryptType, finalKey: Key)

  datatype OnionPayload = OnionPayload(ciphertext: bytes, path: OnionPath, reply: ReplyDecrypter)

  /** What one layer draws: the ephemeral private key and the iv or nonce. */
  datatype LayerRandom = LayerRandom(seckey: Key, random: bytes)

  predicate GoodRandom(keytype: EncryptType, rnd: seq<LayerRandom>) {
    forall i :: 0 <= i < |rnd| ==> |rnd[i].random| == RandomLength(keytype)
  }

  // ---------- Framing ----------

  /** A size as an unsigned 32-bit integer, wrapping around. */
  function EncodeSize(n: nat): (b: bytes)
    ensures |b| == 4
    ensures FromLE(b) == n % TWO_32
  {
    Pow256Of4();
    FromLEToLE(n % TWO_32, 4);
    ToLE(n % TWO_32, 4)
  }

  function Frame(ciphertext: bytes, metadata: Members): (data: bytes)
    ensures |data| == 4 + |ciphertext| + |Dump(metadata)|
  {
    EncodeSize(|ciphertext|) + ciphertext + Dump(metadata)
  }

  /** The innermost plaintext. */
  function Core(payload: bytes, control: bytes): (data: bytes)
    ensures |data| == 4 + |payload| + |control|
  {
    EncodeSize(|payload|) + payload + control
  }

  /** The routing data a hop reads: where to send the rest, and the key the next hop needs. */
  function Routing(next: SNodeInfo, ephemeral: Key, keytype: EncryptType): (o: Members) {
    Put(Put(Put([], DESTINATION, String(ToHex(next.identity))),
            EPHEMERAL_KEY, String(ToHex(ephemeral))),
        ENC_TYPE, String(ToString(keytype)))
  }

  /** The outermost metadata, for the first hop. */
  function Opening(ephemeral: Key, keytype: EncryptType): (o: Members) {
    Put(Put([], EPHEMERAL_KEY, String(ToHex(ephemeral))), ENC_TYPE, String(ToString(keytype)))
  }

  // ---------- Layers ----------

  /** An encrypted blob and the ephemeral public key that its reader needs. */
  datatype Layered = Layered(blob: bytes, ephemeral: Key)

  function Wrap(p: Primitives, keytype: EncryptType, hop: SNodeInfo, plain: bytes, rnd: LayerRandom)
    : (r: Result<Layered>)
    requires |rnd.random| == RandomLength(keytype)
  {
    match Encrypted(p, EndOf(p, rnd.seckey, false), keytype, plain, hop.onion, rnd.random)
    case Err(e) => Err(e)
    case Ok(blob) => Ok(Layered(blob, p.basePoint(rnd.seckey)))
  }

  /** The layers for the hops from `i` to the end of the path. */
  function Layers(p: Primitives, keytype: EncryptType, hops: seq<SNodeInfo>, core: bytes, rnd: seq<LayerRandom>, i: nat)
    : (r: Result<Layered>)
    requires i < |hops| == |rnd| && GoodRandom(keytype, rnd)
    decreases |hops| - i
  {
    if i == |hops| - 1 then Wrap(p, keytype, hops[i], core, rnd[i])
    else
      match Layers(p, keytype, hops, core, rnd, i + 1)
      case Err(e) => Err(e)
      case Ok(inner) =>
        Wrap(p, keytype, hops[i], Frame(inner.blob, Routing(hops[i + 1], inner.ephemeral, keytype)), rnd[i])
  }

  function Onion(p: Primitives, keytype: EncryptType, payload: bytes, path: OnionPath, rnd: seq<LayerRandom>)
    : (r: Result<OnionPayload>)
    requires 0 < |path.hops| == |rnd| && GoodRandom(keytype, rnd)
  {
    match Layers(p, keytype, path.hops, Core(payload, path.control), rnd, 0)
    case Err(e) => Err(e)
    case Ok(l) =>
      var last := |rnd| - 1;
      Ok(OnionPayload(Frame(l.blob, Opening(l.ephemeral, keytype)), path,
                      ReplyDecrypter(EndOf(p, rnd[last].seckey, false), keytype, path.hops[last].onion)))
  }

  lemma {:induction false} OnionOfLayers(p: Primitives, keytype: EncryptType, payload: bytes, path: OnionPath,
                                         rnd: seq<LayerRandom>, l: Layered)
    requires 0 < |path.hops| == |rnd| && GoodRandom(keytype, rnd)
    requires Layers(p, keytype, path.hops, Core(payload, path.control), rnd, 0) == Ok(l)
    ensures var last := |rnd| - 1;
            Onion(p, keytype, payload, path, rnd)
            == Ok(OnionPayload(Frame(l.blob, Opening(l.ephemeral, keytype)), path,
                               ReplyDecrypter(EndOf(p, rnd[last].seckey, false), keytype, path.hops[last].onion)))
  {
  }

  lemma {:induction false} LayersLast(p: Primitives, keytype: EncryptType, hops: seq<SNodeInfo>, core: bytes,
                                      rnd: seq<LayerRandom>)
    requires 0 < |hops| == |rnd| && GoodRandom(keytype, rnd)
    ensures var i := |hops| - 1;
            Layers(p, keytype, hops, core, rnd, i) == Wrap(p, keytype, hops[i], core, rnd[i])
  {
    hide Wrap, Frame, Routing;
  }

  lemma {:induction false} LayersStep(p: Primitives, keytype: EncryptType, hops: seq<SNodeInfo>, core: bytes,
                                      rnd: seq<LayerRandom>, i: nat, inner: Layered)
    requires i + 1 < |hops| == |rnd| && GoodRandom(keytype, rnd)
    requires Layers(p, keytype, hops, core, rnd, i + 1) == Ok(inner)
    ensures Layers(p, keytype, hops, core, rnd, i)
         == Wrap(p, keytype, hops[i], Frame(inner.blob, Routing(hops[i + 1], inner.ephemeral, keytype)), rnd[i])
  {
    hide Wrap, Frame, Routing;
  }

  /** Walks the path backwards, overwriting one blob and one ephemeral key pair. */
  method MakeOnion(p: Primitives, keytype: EncryptType, payload: bytes, path: OnionPath, rnd: seq<LayerRandom>)
    returns (r: Result<OnionPayload>)
    requires p.LawfulCiphers()
    requires 0 < |path.hops| == |rnd| && GoodRandom(keytype, rnd)
    ensures r == Onion(p, keytype, payload, path, rnd)
  {
    hide Layers, Encrypted, Dump, Routing, Opening, Onion;
    var hops := path.hops;
    ghost var core := Core(payload, path.control);
    var it := |hops| - 1;
    var a := rnd[it].seckey;
    var A := p.basePoint(a);
    var e := ChannelEncryption(a, A, false);
    var data := EncodeSize(|payload|);
    data := data + payload;
    data := data + path.control;
    assert data == core;
    LayersLast(p, keytype, hops, core, rnd);
    var encrypted := Encrypt(p, e, keytype, data, hops[it].onion, rnd[it].random);
    if encrypted.Err? {
      OnionError(p, keytype, payload, path, rnd, it);
      return Err(encrypted.error);
    }
    var blob := encrypted.value;
    var finalSeckey, finalPubkey := a, A;
    while it > 0
      invariant 0 <= it < |hops|
      invariant Layers(p, keytype, hops, core, rnd, it) == Ok(Layered(blob, A))
    {
      it := it - 1;
      var routing := Routing(hops[it + 1], A, keytype);
      LayersStep(p, keytype, hops, core, rnd, it, Layered(blob, A));
      blob := EncodeSize(|blob|) + blob + Dump(routing);
      a := rnd[it].seckey;
      A := p.basePoint(a);
      e := ChannelEncryption(a, A, false);
      encrypted := Encrypt(p, e, keytype, blob, hops[it].onion, rnd[it].random);
      if encrypted.Err? {
        OnionError(p, keytype, payload, path, rnd, it);
        return Err(encrypted.error);
      }
      blob := encrypted.value;
    }
    OnionOfLayers(p, keytype, payload, path, rnd, Layered(blob, A));
    blob := EncodeSize(|blob|) + blob + Dump(Opening(A, keytype));
    var reply := ReplyDecrypter(ChannelEncryption(finalSeckey, finalPubkey, false), keytype, hops[|hops| - 1].onion);
    return Ok(OnionPayload(blob, path, reply));
  }

  /** An inner layer that fails makes the whole onion fail. */
  lemma {:induction false} LayersError(
      p: Primitives, keytype: EncryptType, hops: seq<SNodeInfo>, core: bytes, rnd: seq<LayerRandom>, i: nat)
    requires i < |hops| == |rnd| && GoodRandom(keytype, rnd)
    requires Layers(p, keytype, hops, core, rnd, i).Err?
    ensures Layers(p, keytype, hops, core, rnd, 0) == Layers(p, keytype, hops, core, rnd, i)
  {
    hide Wrap, Frame, Routing;
    if i > 0 {
      LayersError(p, keytype, hops, core, rnd, i - 1);
    }
  }

  lemma {:induction false} OnionError(
      p: Primitives, keytype: EncryptType, payload: bytes, path: OnionPath, rnd: seq<LayerRandom>, i: nat)
    requires i < |path.hops| == |rnd| && GoodRandom(keytype, rnd)
    requires Layers(p, keytype, path.hops, Core(payload, path.control), rnd, i).Err?
    ensures Onion(p, keytype, payload, path, rnd)
         == Err(Layers(p, keytype, path.hops, Core(payload, path.control), rnd, i).error)
  {
    hide Layers, Frame, Routing;
    LayersError(p, keytype, path.hops, Core(payload, path.control), rnd, i);
  }

  // ---------- Replies ----------

  /** The decrypted reply, tried as it is and then as base64. */
  function Handled(p: Primitives, d: ReplyDecrypter, body: bytes): (r: Option<bytes>) {
    match Decrypted(p, d.channel, d.keytype, body, d.finalKey)
    case Ok(plain) => Some(plain)
    case Err(_) =>
      if !IsBase64(body) then None
      else match Decrypted(p, d.channel, d.keytype, FromBase64(body), d.finalKey)
        case Ok(plain) => Some(plain)
        case Err(_) => None
  }

  method MaybeDecryptResponse(p: Primitives, d: ReplyDecrypter, response: bytes) returns (r: Option<bytes>)
    requires p.LawfulCiphers()
    ensures r == Handled(p, d, response)
  {
    var body := response;
    var plain := Decrypt(p, d.channel, d.keytype, body, d.finalKey);
    if plain.Ok? {
      return Some(plain.value);
    }
    if IsBase64(body) {
      body := FromBase64(body);
      plain := Decrypt(p, d.channel, d.keytype, body, d.finalKey);
      if plain.Ok? {
        return Some(plain.value);
      }
    }
    return None;
  }
}
