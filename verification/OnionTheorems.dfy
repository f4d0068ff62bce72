/** What building and peeling promise together: every hop recovers exactly its layer, the last
    one the payload, and a reply finds its way back. */
module OnionTheorems {
  import opened Wrappers
  import opened Bytes
  import opened Labels
  import opened Encodings
  import opened Json
  import opened JsonTheorems
  import opened KeyTypes
  import opened Primitives
  import opened ChannelEncryptions
  import opened OnionMakers
  import opened Junks

  // ---------- Metadata ----------

  /** Metadata from which a hop learns key and type of the ciphertext next to it, in whichever of
      the accepted forms they are. */
  predicate Announces(metadata: Members, ephemeral: Key, keytype: EncryptType) {
    && Printable(Object(metadata))
    && KeytypeOf(Object(metadata)) == Ok(keytype)
    && RemoteOf(Object(metadata)) == Ok(ephemeral)
  }

  lemma {:induction false} NamesAreOrdered()
    ensures Less(DESTINATION, ENC_TYPE)
    ensures Less(DESTINATION, EPHEMERAL_KEY)
    ensures Less(ENC_TYPE, EPHEMERAL_KEY)
  {
    var d, e, k := DESTINATION, ENC_TYPE, EPHEMERAL_KEY;
    assert d[0] == 100 && e[0] == 101 && k[0] == 101 && e[1] == 110 && k[1] == 112;
    assert Less(e[1..], k[1..]);
  }

  /** Key order puts the type between destination and key, whatever order they were given in. */
  lemma {:induction false} RoutingMembers(next: SNodeInfo, ephemeral: Key, keytype: EncryptType)
    ensures Routing(next, ephemeral, keytype)
         == [Member(DESTINATION, String(ToHex(next.identity))),
             Member(ENC_TYPE, String(ToString(keytype))),
             Member(EPHEMERAL_KEY, String(ToHex(ephemeral)))]
  {
    NamesAreOrdered();
    var d, e, k := DESTINATION, ENC_TYPE, EPHEMERAL_KEY;
    var m := Member(d, String(ToHex(next.identity)));
    var n := Member(k, String(ToHex(ephemeral)));
    PutLast([m], k, n.value);
    PutBetween(m, n, e, String(ToString(keytype)));
  }

  lemma {:induction false} OpeningMembers(ephemeral: Key, keytype: EncryptType)
    ensures Opening(ephemeral, keytype)
         == [Member(ENC_TYPE, String(ToString(keytype))), Member(EPHEMERAL_KEY, String(ToHex(ephemeral)))]
  {
    NamesAreOrdered();
    LessTotal(ENC_TYPE, EPHEMERAL_KEY);
  }

  lemma {:induction false} HexIsPlain(data: bytes)
    ensures PlainText(ToHex(data))
  {
    assert Pow2(4) == 16;
  }

  lemma {:induction false} NameIsPlain(t: EncryptType)
    ensures PlainText(ToString(t))
  {
  }

  /** Plain strings under plain keys in order can be printed. */
  lemma {:induction false} PlainIsPrintable(o: Members)
    requires Ordered(o) && forall m :: m in o ==> PlainMember(m)
    ensures Printable(Object(o))
  {
    forall i | 0 <= i < |o| ensures Utf8(o[i].key) && Printable(o[i].value) {
      assert o[i] in o;
      PlainIsUtf8(o[i].key);
      PlainIsUtf8(o[i].value.text);
    }
  }

  lemma {:induction false} PutAnnouncement(o: Members, ephemeral: Key, keytype: EncryptType)
    requires Ordered(o) && forall m :: m in o ==> PlainMember(m)
    ensures var r := Put(Put(o, EPHEMERAL_KEY, String(ToHex(ephemeral))), ENC_TYPE, String(ToString(keytype)));
            && Announces(r, ephemeral, keytype)
            && Find(r, DESTINATION) == Find(o, DESTINATION)
  {
    hide ParseEncType, ParsedPubkey, Printable, PlainText;
    var k, e := String(ToHex(ephemeral)), String(ToString(keytype));
    assert |EPHEMERAL_KEY| == 13 && |ENC_TYPE| == 8 && |DESTINATION| == 11;
    PutTwo(o, EPHEMERAL_KEY, k, ENC_TYPE, e, DESTINATION);
    HexIsPlain(ephemeral);
    NameIsPlain(keytype);
    LabelsArePlain();
    PutKeys(o, EPHEMERAL_KEY, k);
    PutKeys(Put(o, EPHEMERAL_KEY, k), ENC_TYPE, e);
    PlainIsPrintable(Put(Put(o, EPHEMERAL_KEY, k), ENC_TYPE, e));
    ParseEncTypeInverse(keytype, ToString(keytype));
    ParseEncodedKey(ToHex(ephemeral), ephemeral);
  }

  lemma {:induction false} RoutingAnnounces(next: SNodeInfo, ephemeral: Key, keytype: EncryptType)
    ensures Announces(Routing(next, ephemeral, keytype), ephemeral, keytype)
    ensures Find(Routing(next, ephemeral, keytype), DESTINATION) == Some(String(ToHex(next.identity)))
  {
    hide Announces;
    HexIsPlain(next.identity);
    LabelsArePlain();
    PutAnnouncement([Member(DESTINATION, String(ToHex(next.identity)))], ephemeral, keytype);
  }

  lemma {:induction false} OpeningAnnounces(ephemeral: Key, keytype: EncryptType)
    ensures Announces(Opening(ephemeral, keytype), ephemeral, keytype)
  {
    hide Announces;
    PutAnnouncement([], ephemeral, keytype);
  }

  /** The printed text of a member whose value needs no escapes. */
  lemma {:induction false} PlainMemberText(m: Member, open: bytes, middle: bytes, close: bytes)
    requires PlainMember(m) && Spelled(open, "\"") && Spelled(middle, "\":\"") && Spelled(close, "\"")
    ensures DumpMember(m) == open + m.key + middle + m.value.text + close
  {
    EscapePlain(m.key);
    EscapePlain(m.value.text);
    assert open == [QUOTE] && middle == [QUOTE, COLON, QUOTE] && close == [QUOTE];
  }

  /** The brackets, quotes and separators of compact JSON. */
  predicate Marks(open: bytes, quote: bytes, middle: bytes, comma: bytes, close: bytes) {
    && Spelled(open, "{") && Spelled(quote, "\"") && Spelled(middle, "\":\"")
    && Spelled(comma, ",") && Spelled(close, "}")
  }

  lemma {:induction false} MarkBytes(open: bytes, quote: bytes, middle: bytes, comma: bytes, close: bytes)
    requires Marks(open, quote, middle, comma, close)
    ensures open == [OPEN_BRACE] && comma == [COMMA] && close == [CLOSE_BRACE]
  {
  }

  lemma {:induction false} TwoText(
      a: Member, b: Member, open: bytes, quote: bytes, middle: bytes, comma: bytes, close: bytes)
    requires PlainMember(a) && PlainMember(b) && Marks(open, quote, middle, comma, close)
    ensures Dump([a, b])
         == open + (quote + a.key + middle + a.value.text + quote)
            + comma + (quote + b.key + middle + b.value.text + quote) + close
  {
    PlainMemberText(a, quote, middle, quote);
    PlainMemberText(b, quote, middle, quote);
    MarkBytes(open, quote, middle, comma, close);
    hide PlainMember, Marks, DumpMember, Dump;
    DumpTwo(a, b);
  }

  lemma {:induction false} ThreeText(
      a: Member, b: Member, c: Member, open: bytes, quote: bytes, middle: bytes, comma: bytes, close: bytes)
    requires PlainMember(a) && PlainMember(b) && PlainMember(c) && Marks(open, quote, middle, comma, close)
    ensures Dump([a, b, c])
         == open + (quote + a.key + middle + a.value.text + quote)
            + comma + (quote + b.key + middle + b.value.text + quote)
            + comma + (quote + c.key + middle + c.value.text + quote) + close
  {
    PlainMemberText(a, quote, middle, quote);
    PlainMemberText(b, quote, middle, quote);
    PlainMemberText(c, quote, middle, quote);
    MarkBytes(open, quote, middle, comma, close);
    hide PlainMember, Marks, DumpMember, Dump;
    DumpThree(a, b, c);
  }

  /** The routing data as printed: {"destination":"...","enc_type":"...","ephemeral_key":"..."}. */
  lemma {:induction false} RoutingText(next: SNodeInfo, ephemeral: Key, keytype: EncryptType,
                                       open: bytes, quote: bytes, middle: bytes, comma: bytes, close: bytes)
    requires Marks(open, quote, middle, comma, close)
    ensures Dump(Routing(next, ephemeral, keytype))
         == open + (quote + DESTINATION + middle + ToHex(next.identity) + quote)
            + comma + (quote + ENC_TYPE + middle + ToString(keytype) + quote)
            + comma + (quote + EPHEMERAL_KEY + middle + ToHex(ephemeral) + quote) + close
  {
    var d := Member(DESTINATION, String(ToHex(next.identity)));
    var e := Member(ENC_TYPE, String(ToString(keytype)));
    var k := Member(EPHEMERAL_KEY, String(ToHex(ephemeral)));
    hide Marks, Routing, Dump, ToHex, ToString, PlainMember;
    RoutingMembers(next, ephemeral, keytype);
    PlainMembers(next.identity, ephemeral, keytype);
    ThreeText(d, e, k, open, quote, middle, comma, close);
  }

  /** The opening data as printed: {"enc_type":"...","ephemeral_key":"..."}. */
  lemma {:induction false} OpeningText(ephemeral: Key, keytype: EncryptType,
                                       open: bytes, quote: bytes, middle: bytes, comma: bytes, close: bytes)
    requires Marks(open, quote, middle, comma, close)
    ensures Dump(Opening(ephemeral, keytype))
         == open + (quote + ENC_TYPE + middle + ToString(keytype) + quote)
            + comma + (quote + EPHEMERAL_KEY + middle + ToHex(ephemeral) + quote) + close
  {
    var e := Member(ENC_TYPE, String(ToString(keytype)));
    var k := Member(EPHEMERAL_KEY, String(ToHex(ephemeral)));
    hide Marks, Opening, Dump, ToHex, ToString, PlainMember;
    OpeningMembers(ephemeral, keytype);
    PlainMembers(ephemeral, ephemeral, keytype);
    TwoText(e, k, open, quote, middle, comma, close);
  }

  lemma {:induction false} PlainMembers(identity: Key, ephemeral: Key, keytype: EncryptType)
    ensures PlainMember(Member(DESTINATION, String(ToHex(identity))))
    ensures PlainMember(Member(ENC_TYPE, String(ToString(keytype))))
    ensures PlainMember(Member(EPHEMERAL_KEY, String(ToHex(ephemeral))))
  {
    hide PlainText;
    LabelsArePlain();
    HexIsPlain(identity);
    HexIsPlain(ephemeral);
    NameIsPlain(keytype);
  }

  lemma {:induction false} DumpTwo(a: Member, b: Member)
    ensures Dump([a, b]) == [OPEN_BRACE] + DumpMember(a) + [COMMA] + DumpMember(b) + [CLOSE_BRACE]
  {
    hide DumpMember;
    assert [a, b][1..] == [b] && [b][1..] == [];
    assert DumpTail([b]) == [COMMA] + (DumpMember(b) + [CLOSE_BRACE]);
  }

  lemma {:induction false} DumpThree(a: Member, b: Member, c: Member)
    ensures Dump([a, b, c])
         == [OPEN_BRACE] + DumpMember(a) + [COMMA] + DumpMember(b) + [COMMA] + DumpMember(c) + [CLOSE_BRACE]
  {
    hide DumpMember;
    assert [a, b, c][1..] == [b, c] && [b, c][1..] == [c] && [c][1..] == [];
    assert DumpTail([c]) == [COMMA] + (DumpMember(c) + [CLOSE_BRACE]);
    assert DumpTail([b, c]) == [COMMA] + (DumpMember(b) + DumpTail([c]));
  }

  // ---------- Framing ----------

  /** A frame reads back as what it was made of if and only if the size fits 32 bits. */
  lemma {:induction false} UnframedFrame(ciphertext: bytes, metadata: Members)
    requires Printable(Object(metadata))
    ensures Unframed(Frame(ciphertext, metadata)) == Ok((ciphertext, Object(metadata))) <==> |ciphertext| < TWO_32
  {
    hide Printable, Parse, DumpValue;
    var data := Frame(ciphertext, metadata);
    assert data[..4] == EncodeSize(|ciphertext|);
    DecodedSize(data, |ciphertext|);
    if |ciphertext| < TWO_32 {
      assert data[4..4 + |ciphertext|] == ciphertext;
      assert data[4 + |ciphertext|..] == Dump(metadata);
      ParseDump(Object(metadata));
    } else {
      var r := Unframed(data);
      assert r.Ok? ==> |r.value.0| < TWO_32;
    }
  }

  lemma {:induction false} DecodedSize(data: bytes, n: nat)
    requires |data| >= 4 && data[..4] == EncodeSize(n)
    ensures DecodeSize(data) == Ok(n % TWO_32)
    ensures n < TWO_32 ==> DecodeSize(data) == Ok(n)
  {
  }

  lemma {:induction false} FrameInjective(c: bytes, m: Members, c': bytes, m': Members)
    requires Printable(Object(m)) && Printable(Object(m'))
    requires |c| < TWO_32 && |c'| < TWO_32 && Frame(c, m) == Frame(c', m')
    ensures c == c' && m == m'
  {
    hide Printable, Frame, Unframed;
    UnframedFrame(c, m);
    UnframedFrame(c', m');
  }

  /** A message from which a hop takes this blob, key and type, however it is written. */
  predicate Carries(data: bytes, blob: bytes, ephemeral: Key, keytype: EncryptType) {
    var r := Unframed(data);
    && r.Ok? && r.value.0 == blob
    && KeytypeOf(r.value.1) == Ok(keytype)
    && RemoteOf(r.value.1) == Ok(ephemeral)
  }

  lemma {:induction false} FrameCarries(blob: bytes, metadata: Members, ephemeral: Key, keytype: EncryptType)
    requires |blob| < TWO_32 && Announces(metadata, ephemeral, keytype)
    ensures Carries(Frame(blob, metadata), blob, ephemeral, keytype)
  {
    hide Frame, Unframed, Printable, KeytypeOf, RemoteOf;
    UnframedFrame(blob, metadata);
  }

  // ---------- Sizes ----------

  function RoutingSize(keytype: EncryptType): nat { 179 + |ToString(keytype)| }
  function OpeningSize(keytype: EncryptType): nat { 98 + |ToString(keytype)| }

  lemma {:induction false} LabelsArePlain()
    ensures PlainText(DESTINATION)
    ensures PlainText(ENC_TYPE)
    ensures PlainText(EPHEMERAL_KEY)
  {
  }

  lemma {:induction false} MetadataSizes(next: SNodeInfo, ephemeral: Key, keytype: EncryptType)
    ensures |Dump(Routing(next, ephemeral, keytype))| == RoutingSize(keytype)
    ensures |Dump(Opening(ephemeral, keytype))| == OpeningSize(keytype)
  {
    var x, y, z := ToHex(next.identity), ToString(keytype), ToHex(ephemeral);
    var d, e, k := Member(DESTINATION, String(x)), Member(ENC_TYPE, String(y)), Member(EPHEMERAL_KEY, String(z));
    assert PlainMember(d) && PlainMember(e) && PlainMember(k) by {
      LabelsArePlain();
      HexIsPlain(next.identity);
      HexIsPlain(ephemeral);
      NameIsPlain(keytype);
    }
    assert |Dump([d, e, k])| == RoutingSize(keytype) by { DumpSizes(d, e, k); }
    assert |Dump([e, k])| == OpeningSize(keytype) by { DumpSizes(e, k, d); }
    RoutingMembers(next, ephemeral, keytype);
    OpeningMembers(ephemeral, keytype);
  }

  lemma {:induction false} FrameSizes(blob: bytes, next: SNodeInfo, ephemeral: Key, keytype: EncryptType)
    ensures |Frame(blob, Routing(next, ephemeral, keytype))| == 4 + |blob| + RoutingSize(keytype)
    ensures |Frame(blob, Opening(ephemeral, keytype))| == 4 + |blob| + OpeningSize(keytype)
  {
    MetadataSizes(next, ephemeral, keytype);
  }

  /** The size of the blob for the last `n` hops around a core of `m` bytes. */
  function BlobSize(keytype: EncryptType, n: nat, m: nat): (s: nat)
    requires n > 0 && keytype != AesCbc
    ensures s >= m
  {
    Overhead(keytype, 0) + if n == 1 then m else 4 + BlobSize(keytype, n - 1, m) + RoutingSize(keytype)
  }

  /** The size of the whole onion. */
  function OnionSize(keytype: EncryptType, n: nat, payload: nat, control: nat): (s: nat)
    requires n > 0 && keytype != AesCbc
  {
    4 + BlobSize(keytype, n, 4 + payload + control) + OpeningSize(keytype)
  }

  /** A blob size below which no 32-bit size field and no OpenSSL `int` overflows. */
  function SizeLimit(keytype: EncryptType): nat {
    if keytype == XChaCha20 then TWO_32 else 0x8000_0000 + Overhead(keytype, 0)
  }

  // ---------- Peeling ----------

  /** One key pair per hop, whose public half the path lists. */
  predicate Owns(p: Primitives, secs: seq<Key>, hops: seq<SNodeInfo>) {
    |secs| == |hops| && forall i :: 0 <= i < |hops| ==> hops[i].onion == p.basePoint(secs[i])
  }

  /** What hop `i` makes of a message. */
  function ParsedBy(p: Primitives, secs: seq<Key>, i: nat, data: bytes): (r: Result<Junk>)
    requires i < |secs|
  {
    ParsedJunk(p, p.basePoint(secs[i]), secs[i], data)
  }

  /** Hops `i` to `j - 1` in turn parse what the one before them decrypted. */
  function Peeled(p: Primitives, secs: seq<Key>, i: nat, j: nat, data: bytes): (r: Result<bytes>)
    requires i <= j <= |secs|
    decreases j - i
  {
    if i == j then Ok(data)
    else match ParsedBy(p, secs, i, data)
      case Err(e) => Err(e)
      case Ok(junk) => Peeled(p, secs, i + 1, j, junk.payload)
  }

  /** What the last hop ends up with when hop `i` gets the message. */
  function PeeledJunk(p: Primitives, secs: seq<Key>, i: nat, data: bytes): (r: Result<Junk>)
    requires i < |secs|
    decreases |secs| - i
  {
    match ParsedBy(p, secs, i, data)
    case Err(e) => Err(e)
    case Ok(junk) => if i == |secs| - 1 then Ok(junk) else PeeledJunk(p, secs, i + 1, junk.payload)
  }

  /** The reply encrypter that hop `i` keeps. */
  function ReplyOf(p: Primitives, keytype: EncryptType, secs: seq<Key>, rnd: seq<LayerRandom>, i: nat): ReplyEncrypter
    requires i < |secs| == |rnd|
  {
    ReplyEncrypter(EndOf(p, secs[i], true), keytype, p.basePoint(rnd[i].seckey))
  }

  /** The situation of the theorems: keys, randomness and sizes are as they should be. */
  predicate Deliverable(p: Primitives, keytype: EncryptType, hops: seq<SNodeInfo>, core: bytes,
                        secs: seq<Key>, rnd: seq<LayerRandom>)
  {
    && keytype != AesCbc
    && 0 < |hops| == |rnd| && Owns(p, secs, hops) && GoodRandom(keytype, rnd)
    && BlobSize(keytype, |hops|, |core|) < SizeLimit(keytype)
  }

  /** A layer below the limit is built and has the announced size. */
  lemma {:induction false} LayerWraps(p: Primitives, keytype: EncryptType, hop: SNodeInfo, sec: Key,
                                      plain: bytes, rnd: LayerRandom)
    requires p.Lawful() && hop.onion == p.basePoint(sec)
    requires |rnd.random| == RandomLength(keytype) && FitsCipher(keytype, |plain|)
    ensures var l := Wrap(p, keytype, hop, plain, rnd);
            && l.Ok?
            && l.value.ephemeral == p.basePoint(rnd.seckey)
            && |l.value.blob| == |plain| + Overhead(keytype, |plain|)
  {
    hide Encrypted, Decrypted;
    ChannelRoundTrip(p, keytype, rnd.seckey, sec, false, plain, rnd.random);
    EncryptedLength(p, EndOf(p, rnd.seckey, false), keytype, plain, hop.onion, rnd.random);
  }

  /** From any message that carries its layer, a hop decrypts exactly what was wrapped for it. */
  lemma {:induction false} PeelOneLayer(p: Primitives, keytype: EncryptType, hop: SNodeInfo, sec: Key,
                                        plain: bytes, rnd: LayerRandom, data: bytes)
    requires p.Lawful() && hop.onion == p.basePoint(sec)
    requires |rnd.random| == RandomLength(keytype) && FitsCipher(keytype, |plain|)
    requires Wrap(p, keytype, hop, plain, rnd).Ok?
    requires Carries(data, Wrap(p, keytype, hop, plain, rnd).value.blob, p.basePoint(rnd.seckey), keytype)
    ensures ParsedJunk(p, p.basePoint(sec), sec, data)
         == Ok(Junk(plain, ReplyEncrypter(EndOf(p, sec, true), keytype, p.basePoint(rnd.seckey))))
  {
    hide Encrypted, Decrypted, Unframed, KeytypeOf, RemoteOf;
    ChannelRoundTrip(p, keytype, rnd.seckey, sec, false, plain, rnd.random);
  }

  /** What is wrapped for hop `i`: the core, or the frame around the next hop's blob. */
  function PlainFor(p: Primitives, keytype: EncryptType, hops: seq<SNodeInfo>, core: bytes,
                    rnd: seq<LayerRandom>, i: nat): (plain: bytes)
    requires i < |hops| == |rnd| && GoodRandom(keytype, rnd)
    requires i < |hops| - 1 ==> Layers(p, keytype, hops, core, rnd, i + 1).Ok?
  {
    if i == |hops| - 1 then core
    else
      var inner := Layers(p, keytype, hops, core, rnd, i + 1).value;
      Frame(inner.blob, Routing(hops[i + 1], inner.ephemeral, keytype))
  }

  lemma {:induction false} LayersWrap(p: Primitives, keytype: EncryptType, hops: seq<SNodeInfo>, core: bytes,
                                      rnd: seq<LayerRandom>, i: nat)
    requires i < |hops| == |rnd| && GoodRandom(keytype, rnd)
    requires i < |hops| - 1 ==> Layers(p, keytype, hops, core, rnd, i + 1).Ok?
    ensures Layers(p, keytype, hops, core, rnd, i)
         == Wrap(p, keytype, hops[i], PlainFor(p, keytype, hops, core, rnd, i), rnd[i])
  {
    hide Frame, Wrap, Routing;
  }

  lemma {:induction false} PlainSize(p: Primitives, keytype: EncryptType, hops: seq<SNodeInfo>, core: bytes,
                                     rnd: seq<LayerRandom>, i: nat)
    requires keytype != AesCbc && i < |hops| == |rnd| && GoodRandom(keytype, rnd)
    requires i < |hops| - 1 ==>
               var l := Layers(p, keytype, hops, core, rnd, i + 1);
               l.Ok? && |l.value.blob| == BlobSize(keytype, |hops| - i - 1, |core|)
    ensures |PlainFor(p, keytype, hops, core, rnd, i)| + Overhead(keytype, 0) == BlobSize(keytype, |hops| - i, |core|)
  {
    hide Frame, Dump, Routing, Layers;
    if i < |hops| - 1 {
      var inner := Layers(p, keytype, hops, core, rnd, i + 1).value;
      FrameSizes(inner.blob, hops[i + 1], inner.ephemeral, keytype);
    }
  }

  /** Layer sizes increase strictly, so the bound on the whole covers every layer. */
  lemma {:induction false} RestIsShorter(keytype: EncryptType, n: nat, k: nat, m: nat)
    requires 0 < k <= n && keytype != AesCbc
    ensures BlobSize(keytype, k, m) <= BlobSize(keytype, n, m)
    ensures k < n ==> BlobSize(keytype, k, m) < BlobSize(keytype, n, m)
    decreases n
  {
    if k < n {
      RestIsShorter(keytype, n - 1, k, m);
    }
  }

  /** The layers from `i` on exist, have the announced size and carry hop `i`'s ephemeral key. */
  lemma {:induction false} LayersSize(p: Primitives, keytype: EncryptType, hops: seq<SNodeInfo>, core: bytes,
                                      secs: seq<Key>, rnd: seq<LayerRandom>, i: nat)
    requires p.Lawful() && Deliverable(p, keytype, hops, core, secs, rnd) && i < |hops|
    ensures var l := Layers(p, keytype, hops, core, rnd, i);
            && l.Ok?
            && l.value.ephemeral == p.basePoint(rnd[i].seckey)
            && |l.value.blob| == BlobSize(keytype, |hops| - i, |core|) < SizeLimit(keytype)
    decreases |hops| - i
  {
    hide Wrap, Layers, PlainFor;
    if i < |hops| - 1 {
      LayersSize(p, keytype, hops, core, secs, rnd, i + 1);
    }
    PlainSize(p, keytype, hops, core, rnd, i);
    LayersWrap(p, keytype, hops, core, rnd, i);
    RestIsShorter(keytype, |hops|, |hops| - i, |core|);
    LayerWraps(p, keytype, hops[i], secs[i], PlainFor(p, keytype, hops, core, rnd, i), rnd[i]);
  }

  /** The message that carries the layers from `i` on to hop `i`. */
  predicate CarriesLayers(p: Primitives, keytype: EncryptType, hops: seq<SNodeInfo>, core: bytes,
                          rnd: seq<LayerRandom>, i: nat, data: bytes)
    requires i < |hops| == |rnd| && GoodRandom(keytype, rnd)
  {
    var l := Layers(p, keytype, hops, core, rnd, i);
    l.Ok? && Carries(data, l.value.blob, p.basePoint(rnd[i].seckey), keytype)
  }

  /** Hop `i` recovers exactly what was wrapped for it. */
  lemma {:induction false} PeelLayer(p: Primitives, keytype: EncryptType, hops: seq<SNodeInfo>, core: bytes,
                                     secs: seq<Key>, rnd: seq<LayerRandom>, i: nat, data: bytes)
    requires p.Lawful() && Deliverable(p, keytype, hops, core, secs, rnd) && i < |hops|
    requires CarriesLayers(p, keytype, hops, core, rnd, i, data)
    ensures i < |hops| - 1 ==> Layers(p, keytype, hops, core, rnd, i + 1).Ok?
    ensures ParsedBy(p, secs, i, data)
         == Ok(Junk(PlainFor(p, keytype, hops, core, rnd, i), ReplyOf(p, keytype, secs, rnd, i)))
  {
    hide Wrap, ParsedJunk, Carries, Layers, PlainFor;
    if i < |hops| - 1 {
      LayersSize(p, keytype, hops, core, secs, rnd, i + 1);
    }
    PlainSize(p, keytype, hops, core, rnd, i);
    LayersWrap(p, keytype, hops, core, rnd, i);
    RestIsShorter(keytype, |hops|, |hops| - i, |core|);
    PeelOneLayer(p, keytype, hops[i], secs[i], PlainFor(p, keytype, hops, core, rnd, i), rnd[i], data);
  }

  /** What hop `i` recovers carries the next hop's layers. */
  lemma {:induction false} NextCarries(p: Primitives, keytype: EncryptType, hops: seq<SNodeInfo>, core: bytes,
                                       secs: seq<Key>, rnd: seq<LayerRandom>, i: nat)
    requires p.Lawful() && Deliverable(p, keytype, hops, core, secs, rnd) && i + 1 < |hops|
    ensures Layers(p, keytype, hops, core, rnd, i + 1).Ok?
    ensures PlainFor(p, keytype, hops, core, rnd, i)
         == Frame(Layers(p, keytype, hops, core, rnd, i + 1).value.blob,
                  Routing(hops[i + 1], p.basePoint(rnd[i + 1].seckey), keytype))
    ensures CarriesLayers(p, keytype, hops, core, rnd, i + 1, PlainFor(p, keytype, hops, core, rnd, i))
  {
    hide Routing, Frame, Carries, Layers, Announces;
    LayersSize(p, keytype, hops, core, secs, rnd, i + 1);
    var A := p.basePoint(rnd[i + 1].seckey);
    RoutingAnnounces(hops[i + 1], A, keytype);
    FrameCarries(Layers(p, keytype, hops, core, rnd, i + 1).value.blob, Routing(hops[i + 1], A, keytype), A, keytype);
  }

  /** From hop `i` on, every hop in turn recovers its layer, and the last one the core. */
  lemma {:induction false} PeelToCore(p: Primitives, keytype: EncryptType, hops: seq<SNodeInfo>, core: bytes,
                                      secs: seq<Key>, rnd: seq<LayerRandom>, i: nat, data: bytes)
    requires p.Lawful() && Deliverable(p, keytype, hops, core, secs, rnd) && i < |hops|
    requires CarriesLayers(p, keytype, hops, core, rnd, i, data)
    ensures PeeledJunk(p, secs, i, data) == Ok(Junk(core, ReplyOf(p, keytype, secs, rnd, |hops| - 1)))
    decreases |hops| - i
  {
    hide Routing, Frame, ParsedBy, CarriesLayers, Layers;
    PeelLayer(p, keytype, hops, core, secs, rnd, i, data);
    if i < |hops| - 1 {
      NextCarries(p, keytype, hops, core, secs, rnd, i);
      PeelToCore(p, keytype, hops, core, secs, rnd, i + 1, PlainFor(p, keytype, hops, core, rnd, i));
    }
  }

  /** The message that hop `k` receives: exactly the blob built for the hops from `k` on, with
      metadata that names hop `k` and the key this blob was encrypted under. */
  lemma {:induction false} PeelToHop(p: Primitives, keytype: EncryptType, hops: seq<SNodeInfo>, core: bytes,
                                     secs: seq<Key>, rnd: seq<LayerRandom>, i: nat, k: nat, data: bytes)
    requires p.Lawful() && Deliverable(p, keytype, hops, core, secs, rnd) && i < k < |hops|
    requires CarriesLayers(p, keytype, hops, core, rnd, i, data)
    ensures Layers(p, keytype, hops, core, rnd, k).Ok?
    ensures Peeled(p, secs, i, k, data)
         == Ok(Frame(Layers(p, keytype, hops, core, rnd, k).value.blob,
                     Routing(hops[k], p.basePoint(rnd[k].seckey), keytype)))
    decreases k - i
  {
    hide Routing, Frame, ParsedBy, CarriesLayers, Layers, PlainFor;
    PeelLayer(p, keytype, hops, core, secs, rnd, i, data);
    NextCarries(p, keytype, hops, core, secs, rnd, i);
    if i + 1 < k {
      PeelToHop(p, keytype, hops, core, secs, rnd, i + 1, k, PlainFor(p, keytype, hops, core, rnd, i));
    }
  }

  lemma {:induction false} PeeledIsPayload(p: Primitives, secs: seq<Key>, i: nat, data: bytes)
    requires i < |secs| && PeeledJunk(p, secs, i, data).Ok?
    ensures Peeled(p, secs, i, |secs|, data) == Ok(PeeledJunk(p, secs, i, data).value.payload)
    decreases |secs| - i
  {
    if i < |secs| - 1 {
      PeeledIsPayload(p, secs, i + 1, ParsedBy(p, secs, i, data).value.payload);
    }
  }

  // ---------- The size bound is exact ----------

  /** A hop recovers a plaintext only if it fits the cipher and its blob the size field. */
  lemma {:induction false} LayerNeedsRoom(p: Primitives, keytype: EncryptType, hop: SNodeInfo, sec: Key,
                                          plain: bytes, rnd: LayerRandom, metadata: Members)
    requires p.Lawful() && hop.onion == p.basePoint(sec) && keytype != AesCbc
    requires |rnd.random| == RandomLength(keytype)
    requires Announces(metadata, p.basePoint(rnd.seckey), keytype)
    requires Wrap(p, keytype, hop, plain, rnd).Ok?
    requires var blob := Wrap(p, keytype, hop, plain, rnd).value.blob;
             var r := ParsedJunk(p, p.basePoint(sec), sec, Frame(blob, metadata));
             r.Ok? && r.value.payload == plain
    ensures |plain| + Overhead(keytype, 0) < SizeLimit(keytype)
    ensures |Wrap(p, keytype, hop, plain, rnd).value.blob| == |plain| + Overhead(keytype, 0)
  {
    hide Frame, Parse, Printable, Lookup, Decrypted, Encrypted, ParseEncType, ParsedPubkey;
    var blob := Wrap(p, keytype, hop, plain, rnd).value.blob;
    var data := Frame(blob, metadata);
    var r := ParsedJunk(p, p.basePoint(sec), sec, data).value;
    var ciphertext := Unframed(data).value.0;
    ChannelRoundTrip(p, keytype, rnd.seckey, sec, false, plain, rnd.random);
    DecryptedLength(p, r.reply.channel, r.reply.keytype, ciphertext, r.reply.remote);
    if FitsCipher(keytype, |plain|) {
      EncryptedLength(p, EndOf(p, rnd.seckey, false), keytype, plain, hop.onion, rnd.random);
    } else {
      TruncatedSize(p, EndOf(p, rnd.seckey, false), plain, hop.onion, rnd.random);
      UnframedFrame(blob, metadata);
      assert false;
    }
  }

  lemma {:induction false} TruncatedSize(p: Primitives, ch: ChannelEncryption, plain: bytes, pubkey: Key, random: bytes)
    requires |random| == 12 && Encrypted(p, ch, AesGcm, plain, pubkey, random).Ok?
    ensures |Encrypted(p, ch, AesGcm, plain, pubkey, random).value| < TWO_32
  {
    hide CipherBody, CipherTag;
  }

  /** Hop `i` gets back what was wrapped for it, whatever announces the layer's key. */
  ghost predicate Recovers(p: Primitives, keytype: EncryptType, hops: seq<SNodeInfo>, core: bytes,
                           secs: seq<Key>, rnd: seq<LayerRandom>, i: nat)
    requires i < |hops| == |rnd| == |secs| && GoodRandom(keytype, rnd)
  {
    && Layers(p, keytype, hops, core, rnd, i).Ok?
    && (i < |hops| - 1 ==> Layers(p, keytype, hops, core, rnd, i + 1).Ok?)
    && forall metadata :: Announces(metadata, p.basePoint(rnd[i].seckey), keytype) ==>
         ParsedBy(p, secs, i, Frame(Layers(p, keytype, hops, core, rnd, i).value.blob, metadata))
         == Ok(Junk(PlainFor(p, keytype, hops, core, rnd, i), ReplyOf(p, keytype, secs, rnd, i)))
  }

  ghost predicate SizedLayer(p: Primitives, keytype: EncryptType, hops: seq<SNodeInfo>, core: bytes,
                             rnd: seq<LayerRandom>, i: nat)
    requires keytype != AesCbc && i < |hops| == |rnd| && GoodRandom(keytype, rnd)
  {
    var l := Layers(p, keytype, hops, core, rnd, i);
    l.Ok? && |l.value.blob| == BlobSize(keytype, |hops| - i, |core|) < SizeLimit(keytype)
  }

  lemma {:induction false} RecoveredSize(p: Primitives, keytype: EncryptType, hops: seq<SNodeInfo>, core: bytes,
                                         secs: seq<Key>, rnd: seq<LayerRandom>, i: nat)
    requires p.Lawful() && keytype != AesCbc
    requires i < |hops| == |rnd| && Owns(p, secs, hops) && GoodRandom(keytype, rnd)
    requires Recovers(p, keytype, hops, core, secs, rnd, i)
    requires i < |hops| - 1 ==> SizedLayer(p, keytype, hops, core, rnd, i + 1)
    ensures SizedLayer(p, keytype, hops, core, rnd, i)
  {
    hide Opening, Routing, Frame, Wrap, ParsedJunk, Announces, Layers, PlainFor;
    PlainSize(p, keytype, hops, core, rnd, i);
    LayersWrap(p, keytype, hops, core, rnd, i);
    var A := p.basePoint(rnd[i].seckey);
    OpeningAnnounces(A, keytype);
    LayerNeedsRoom(p, keytype, hops[i], secs[i], PlainFor(p, keytype, hops, core, rnd, i), rnd[i], Opening(A, keytype));
  }

  lemma {:induction false} RecoveredSizes(p: Primitives, keytype: EncryptType, hops: seq<SNodeInfo>, core: bytes,
                                          secs: seq<Key>, rnd: seq<LayerRandom>, i: nat)
    requires p.Lawful() && keytype != AesCbc
    requires i < |hops| == |rnd| && Owns(p, secs, hops) && GoodRandom(keytype, rnd)
    requires forall k :: i <= k < |hops| ==> Recovers(p, keytype, hops, core, secs, rnd, k)
    ensures SizedLayer(p, keytype, hops, core, rnd, i)
    decreases |hops| - i
  {
    hide Recovers, SizedLayer;
    if i < |hops| - 1 {
      RecoveredSizes(p, keytype, hops, core, secs, rnd, i + 1);
    }
    RecoveredSize(p, keytype, hops, core, secs, rnd, i);
  }

  /** Every hop recovers exactly its layer if and only if the blob for the first hop, the largest
      one, stays below the limit. */
  lemma {:induction false} SizeBoundIsExact(p: Primitives, keytype: EncryptType, hops: seq<SNodeInfo>, core: bytes,
                                            secs: seq<Key>, rnd: seq<LayerRandom>)
    requires p.Lawful() && keytype != AesCbc
    requires 0 < |hops| == |rnd| && Owns(p, secs, hops) && GoodRandom(keytype, rnd)
    ensures (forall i :: 0 <= i < |hops| ==> Recovers(p, keytype, hops, core, secs, rnd, i))
            <==> BlobSize(keytype, |hops|, |core|) < SizeLimit(keytype)
  {
    hide Opening, Routing, Frame, Wrap, ParsedBy, Announces, Layers, Carries, PlainFor;
    if forall i :: 0 <= i < |hops| ==> Recovers(p, keytype, hops, core, secs, rnd, i) {
      RecoveredSizes(p, keytype, hops, core, secs, rnd, 0);
    }
    if BlobSize(keytype, |hops|, |core|) < SizeLimit(keytype) {
      forall i | 0 <= i < |hops|
        ensures Recovers(p, keytype, hops, core, secs, rnd, i)
      {
        var A := p.basePoint(rnd[i].seckey);
        LayersSize(p, keytype, hops, core, secs, rnd, i);
        var blob := Layers(p, keytype, hops, core, rnd, i).value.blob;
        OpeningAnnounces(A, keytype);
        FrameCarries(blob, Opening(A, keytype), A, keytype);
        PeelLayer(p, keytype, hops, core, secs, rnd, i, Frame(blob, Opening(A, keytype)));
        forall metadata | Announces(metadata, A, keytype)
          ensures ParsedBy(p, secs, i, Frame(blob, metadata))
               == Ok(Junk(PlainFor(p, keytype, hops, core, rnd, i), ReplyOf(p, keytype, secs, rnd, i)))
        {
          FrameCarries(blob, metadata, A, keytype);
          PeelLayer(p, keytype, hops, core, secs, rnd, i, Frame(blob, metadata));
        }
      }
    }
  }

  // ---------- Main results ----------

  /** What `MakeOnion` returns for a deliverable path, and how large it is. */
  lemma {:induction false} OnionIsFrame(p: Primitives, keytype: EncryptType, payload: bytes, path: OnionPath,
                                        secs: seq<Key>, rnd: seq<LayerRandom>)
    requires p.Lawful() && Deliverable(p, keytype, path.hops, Core(payload, path.control), secs, rnd)
    ensures var l := Layers(p, keytype, path.hops, Core(payload, path.control), rnd, 0);
            && l.Ok?
            && var onion := Onion(p, keytype, payload, path, rnd);
            && onion.Ok?
            && onion.value.path == path
            && onion.value.ciphertext == Frame(l.value.blob, Opening(p.basePoint(rnd[0].seckey), keytype))
            && CarriesLayers(p, keytype, path.hops, Core(payload, path.control), rnd, 0, onion.value.ciphertext)
            && |onion.value.ciphertext| == OnionSize(keytype, |path.hops|, |payload|, |path.control|)
  {
    hide Opening, Routing, Layers, Onion, Frame, Wrap, Carries, Announces;
    var core := Core(payload, path.control);
    var A := p.basePoint(rnd[0].seckey);
    LayersSize(p, keytype, path.hops, core, secs, rnd, 0);
    var l := Layers(p, keytype, path.hops, core, rnd, 0).value;
    OnionOfLayers(p, keytype, payload, path, rnd, l);
    FrameSizes(l.blob, path.hops[0], A, keytype);
    OpeningAnnounces(A, keytype);
    FrameCarries(l.blob, Opening(A, keytype), A, keytype);
  }

  /** Peeling an onion with the keys of its path yields the payload and the control data. */
  lemma {:induction false} OnionRoundTrip(p: Primitives, keytype: EncryptType, payload: bytes, path: OnionPath,
                                          secs: seq<Key>, rnd: seq<LayerRandom>)
    requires p.Lawful() && Deliverable(p, keytype, path.hops, Core(payload, path.control), secs, rnd)
    ensures var onion := Onion(p, keytype, payload, path, rnd);
            && onion.Ok?
            && Peeled(p, secs, 0, |secs|, onion.value.ciphertext) == Ok(Core(payload, path.control))
            && PeeledJunk(p, secs, 0, onion.value.ciphertext)
               == Ok(Junk(Core(payload, path.control), ReplyOf(p, keytype, secs, rnd, |secs| - 1)))
  {
    hide Opening, Routing, Frame, ParsedBy, CarriesLayers, Layers, Onion, Peeled, PeeledJunk;
    OnionIsFrame(p, keytype, payload, path, secs, rnd);
    var onion := Onion(p, keytype, payload, path, rnd).value.ciphertext;
    PeelToCore(p, keytype, path.hops, Core(payload, path.control), secs, rnd, 0, onion);
    PeeledIsPayload(p, secs, 0, onion);
  }

  /** What hop `k` receives names itself and carries its own ephemeral key. */
  lemma {:induction false} OnionPrefix(p: Primitives, keytype: EncryptType, payload: bytes, path: OnionPath,
                                       secs: seq<Key>, rnd: seq<LayerRandom>, k: nat)
    requires p.Lawful() && Deliverable(p, keytype, path.hops, Core(payload, path.control), secs, rnd)
    requires 0 < k < |path.hops|
    ensures var onion := Onion(p, keytype, payload, path, rnd);
            var rest := Layers(p, keytype, path.hops, Core(payload, path.control), rnd, k);
            && onion.Ok? && rest.Ok?
            && var routing := Routing(path.hops[k], p.basePoint(rnd[k].seckey), keytype);
            && Peeled(p, secs, 0, k, onion.value.ciphertext) == Ok(Frame(rest.value.blob, routing))
            && Unframed(Frame(rest.value.blob, routing)) == Ok((rest.value.blob, Object(routing)))
            && Find(routing, DESTINATION) == Some(String(ToHex(path.hops[k].identity)))
            && Announces(routing, p.basePoint(rnd[k].seckey), keytype)
  {
    hide Opening, Routing, Frame, ParsedBy, CarriesLayers, Layers, Onion, Peeled, Find, Unframed, KeytypeOf, RemoteOf;
    hide Printable;
    var core := Core(payload, path.control);
    var B := p.basePoint(rnd[k].seckey);
    OnionIsFrame(p, keytype, payload, path, secs, rnd);
    PeelToHop(p, keytype, path.hops, core, secs, rnd, 0, k, Onion(p, keytype, payload, path, rnd).value.ciphertext);
    LayersSize(p, keytype, path.hops, core, secs, rnd, k);
    RoutingAnnounces(path.hops[k], B, keytype);
    UnframedFrame(Layers(p, keytype, path.hops, core, rnd, k).value.blob, Routing(path.hops[k], B, keytype));
  }

  /** The onion's size in closed form, for both makers. */
  lemma {:induction false} OnionSizeFormula(keytype: EncryptType, n: nat, payload: nat, control: nat)
    requires n > 0 && keytype != AesCbc
    ensures OnionSize(keytype, n, payload, control)
         == payload + control + 4 + if keytype == AesGcm then n * (4 + 28) + (n - 1) * 186 + 105
                                    else n * (4 + 40) + (n - 1) * 188 + 107
  {
    if n > 1 {
      OnionSizeFormula(keytype, n - 1, payload, control);
    }
  }

  /** The last hop can cut payload and control data apart. */
  lemma {:induction false} CoreSplits(payload: bytes, control: bytes)
    requires |payload| < TWO_32
    ensures var core := Core(payload, control);
            && DecodeSize(core) == Ok(|payload|)
            && core[4..4 + |payload|] == payload
            && core[4 + |payload|..] == control
  {
    assert Core(payload, control)[..4] == EncodeSize(|payload|);
    DecodedSize(Core(payload, control), |payload|);
  }

  // ---------- Replies ----------

  /** A reply encrypted by the last hop, with what it kept of the request, is decrypted by the
      maker. */
  lemma {:induction false} ReplyRoundTrip(p: Primitives, keytype: EncryptType, payload: bytes, path: OnionPath,
                                          secs: seq<Key>, rnd: seq<LayerRandom>, reply: bytes, random: bytes)
    requires p.Lawful() && Deliverable(p, keytype, path.hops, Core(payload, path.control), secs, rnd)
    requires |random| == RandomLength(keytype) && FitsCipher(keytype, |reply|)
    ensures var onion := Onion(p, keytype, payload, path, rnd);
            && onion.Ok?
            && var junk := PeeledJunk(p, secs, 0, onion.value.ciphertext);
            && junk.Ok? && junk.value.reply.keytype == keytype
            && var sent := junk.value.reply.Transform(p, reply, random);
            && sent.Ok?
            && Handled(p, onion.value.reply, sent.value) == Some(reply)
  {
    hide Opening, Routing, Frame, Wrap, ParsedJunk, Layers, Peeled, PeeledJunk;
    OnionRoundTrip(p, keytype, payload, path, secs, rnd);
    var last := |secs| - 1;
    ChannelRoundTrip(p, keytype, secs[last], rnd[last].seckey, true, reply, random);
  }

  /** A base64 reply, padded or not, is decrypted too unless its text happens to decrypt as it is. */
  lemma {:induction false} Base64Reply(p: Primitives, keytype: EncryptType, payload: bytes, path: OnionPath,
                                       secs: seq<Key>, rnd: seq<LayerRandom>, reply: bytes, random: bytes, padded: bool)
    requires p.Lawful() && Deliverable(p, keytype, path.hops, Core(payload, path.control), secs, rnd)
    requires |random| == RandomLength(keytype) && FitsCipher(keytype, |reply|)
    ensures var onion := Onion(p, keytype, payload, path, rnd);
            var sent := ReplyOf(p, keytype, secs, rnd, |secs| - 1).Transform(p, reply, random);
            && onion.Ok? && sent.Ok?
            && var d := onion.value.reply;
               var text := ToBase64(sent.value, padded);
               var raw := Decrypted(p, d.channel, d.keytype, text, d.finalKey);
               Handled(p, d, text) == Some(if raw.Ok? then raw.value else reply)
  {
    hide Opening, Routing, Frame, Wrap, ParsedJunk, Layers, Peeled, PeeledJunk;
    OnionRoundTrip(p, keytype, payload, path, secs, rnd);
    var last := |secs| - 1;
    ChannelRoundTrip(p, keytype, secs[last], rnd[last].seckey, true, reply, random);
    Base64RoundTrip(ReplyOf(p, keytype, secs, rnd, last).Transform(p, reply, random).value, padded);
  }
}
