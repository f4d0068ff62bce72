/** Monero-style Schnorr signatures over the Ed25519 base point. */
module Signatures {
  import opened Wrappers
  import opened Bytes
  import opened Buffers
  import opened Encodings
  import opened Modular
  import opened Curves
  import opened Scalars

  datatype Signature = Signature(c: Key, r: Key)

  datatype Keypair = Keypair(pub: Key, sec: Key)

  /** Blake2b with 32 and with 64 bytes of output, and the hash that the challenge comes from. */
  datatype Hashes = Hashes(blake32: bytes -> Key, blake64: bytes -> Wide, fast: bytes -> Key)

  // ---------- Hashing ----------

  /** The 32 bytes of the hash in front of 32 zeros, reduced. */
  function HashToScalar(h: Hashes, data: bytes): (s: Key) {
    ScalarReduce(h.fast(data) + Zeros(32))
  }

  /** The zeros do not change the value. */
  lemma {:induction false} HashToScalarValue(h: Hashes, data: bytes)
    ensures FromLE(HashToScalar(h, data)) == FromLE(h.fast(data)) % L
  {
    hide FromLE, Pow256;
    FromLEConcat(h.fast(data), Zeros(32));
    ZeroValue(32);
    assert Pow256(32) * 0 == 0;
  }

  function Joined(parts: seq<bytes>): (b: bytes) {
    if parts == [] then [] else Joined(parts[..|parts| - 1]) + parts[|parts| - 1]
  }

  method Concatenate(parts: seq<bytes>) returns (result: array<byte>)
    ensures fresh(result) && result[..] == Joined(parts)
  {
    var size := 0;
    for i := 0 to |parts|
      invariant size == |Joined(parts[..i])|
    {
      assert parts[..i + 1][..i] == parts[..i];
      size := size + |parts[i]|;
    }
    assert parts[..|parts|] == parts;
    result := new byte[size];
    var pos := 0;
    for i := 0 to |parts|
      invariant pos == |Joined(parts[..i])| <= size
      invariant result[..pos] == Joined(parts[..i])
    {
      assert parts[..i + 1][..i] == parts[..i];
      JoinedFits(parts, i + 1);
      SplicePrefix(result[..], pos, parts[i]);
      WriteAt(result, pos, parts[i]);
      pos := pos + |parts[i]|;
    }
  }

  lemma {:induction false} JoinedFits(parts: seq<bytes>, i: nat)
    requires i <= |parts|
    ensures |Joined(parts[..i])| <= |Joined(parts)|
    decreases |parts| - i
  {
    if i == |parts| {
      assert parts[..i] == parts;
    } else {
      assert parts[..i + 1][..i] == parts[..i];
      JoinedFits(parts, i + 1);
    }
  }

  lemma {:induction false} JoinedThree(a: bytes, b: bytes, c: bytes)
    ensures Joined([a, b, c]) == a + b + c
  {
    assert [a, b, c][..2] == [a, b] && [a, b][..1] == [a];
    assert Joined([a]) == [] + a;
    assert Joined([a, b]) == Joined([a]) + b;
  }

  // ---------- Signing ----------

  /** The deterministic nonce, reduced and then clamped. */
  function NonceOf(h: Hashes, prefix: Key, keys: Keypair): (x: Key) {
    Clamped(ScalarReduce(h.blake64(h.blake32(keys.sec) + keys.pub + prefix)))
  }

  function Challenge(h: Hashes, prefix: Key, pub: Key, X: Key): (s: Key) {
    HashToScalar(h, prefix + pub + X)
  }

  function Generated<Pt(!new)>(c: Curve<Pt>, h: Hashes, prefix: Key, keys: Keypair): (sig: Signature) {
    var x := NonceOf(h, prefix, keys);
    var ch := Challenge(h, prefix, keys.pub, BaseMul(c, x));
    Signature(ch, ScalarSub(x, ScalarMul(keys.sec, ch)))
  }

  /** `r` holds the hash of the secret key, then a c, then x - a c. */
  method GenerateSignature<Pt(!new)>(c: Curve<Pt>, h: Hashes, prefix: Key, keys: Keypair) returns (sig: Signature)
    ensures sig == Generated(c, h, prefix, keys)
  {
    hide Splice, ScalarReduce, ScalarMul, ScalarSub, BaseMul, Clamped;
    var r := new byte[32];
    SpliceEnd(r[..], 0, h.blake32(keys.sec));
    WriteAt(r, 0, h.blake32(keys.sec));
    assert r[..] == h.blake32(keys.sec);
    var xH := h.blake64(r[..] + keys.pub + prefix);
    var x := new byte[32];
    SpliceEnd(x[..], 0, ScalarReduce(xH));
    WriteAt(x, 0, ScalarReduce(xH));
    assert x[..] == ScalarReduce(xH);
    Clamp(x);
    assert x[..] == NonceOf(h, prefix, keys);
    var X := BaseMul(c, x[..]);
    var M_A_X := Concatenate([prefix, keys.pub, X]);
    JoinedThree(prefix, keys.pub, X);
    var ch := HashToScalar(h, M_A_X[..]);
    assert ch == Challenge(h, prefix, keys.pub, X);
    SpliceEnd(r[..], 0, ScalarMul(keys.sec, ch));
    WriteAt(r, 0, ScalarMul(keys.sec, ch));
    SpliceEnd(r[..], 0, ScalarSub(x[..], r[..]));
    WriteAt(r, 0, ScalarSub(x[..], r[..]));
    sig := Signature(ch, r[..]);
  }

  // ---------- Checking ----------

  /** A canonical encoding of a point of the prime-order subgroup other than the neutral one. */
  predicate ValidPoint<Pt(==, !new)>(c: Curve<Pt>, e: Key) {
    && Canonical(e)
    && !SmallOrderKey(c, e)
    && c.decode(e).Some?
    && c.Mul(L, c.decode(e).value) == c.zero
  }

  /** crypto_scalarmult_ed25519_noclamp. */
  function PointMul<Pt(==, !new)>(c: Curve<Pt>, n: Key, e: Key): (q: Option<Key>) {
    if !ValidPoint(c, e) then None
    else
      var p := c.Mul(FromLE(n) % TWO_255, c.decode(e).value);
      if p == c.zero || FromLE(n) == 0 then None else Some(c.Encode(p))
  }

  /** crypto_core_ed25519_add. */
  function PointAdd<Pt(!new)>(c: Curve<Pt>, p: Key, q: Key): (s: Option<Key>) {
    match (c.decode(p), c.decode(q))
    case (Some(a), Some(b)) => Some(c.Encode(c.add(a, b)))
    case _ => None
  }

  /** X = r G + c A exists, is a proper point, and hashes to c. */
  predicate Accepts<Pt(==, !new)>(c: Curve<Pt>, h: Hashes, sig: Signature, prefix: Key, pub: Key) {
    && FromLE(sig.r) != 0 && FromLE(sig.c) != 0
    && ValidPoint(c, pub)
    && var R := c.Mul(FromLE(sig.r) % TWO_255, c.base);
       var C := c.Mul(FromLE(sig.c) % TWO_255, c.decode(pub).value);
       && R != c.zero && C != c.zero
       && ValidPoint(c, c.Encode(c.add(R, C)))
       && Challenge(h, prefix, pub, c.Encode(c.add(R, C))) == sig.c
  }

  method CheckSignature<Pt(==, !new)>(c: Curve<Pt>, h: Hashes, sig: Signature, prefix: Key, pub: Key)
    returns (ok: bool)
    requires c.LawfulEncoding()
    ensures ok <==> Accepts(c, h, sig, prefix, pub)
  {
    hide ValidPoint, FromLE, Curve.Mul, Curve.Encode, HashToScalar;
    var X := BaseMul(c, sig.r);
    if !BaseMulOk(c, sig.r) {
      return false;
    }
    var cA := PointMul(c, sig.c, pub);
    if cA.None? {
      return false;
    }
    var sum := PointAdd(c, X, cA.value);
    if sum.None? {
      return false;
    }
    X := sum.value;
    if !ValidPoint(c, X) {
      return false;
    }
    var M_A_X := Concatenate([prefix, pub, X]);
    JoinedThree(prefix, pub, X);
    return HashToScalar(h, M_A_X[..]) == sig.c;
  }

  // ---------- Completeness ----------

  lemma {:induction false} ValidMultiple<Pt(!new)>(c: Curve<Pt>, n: int)
    requires c.Lawful()
    ensures ValidPoint(c, c.Encode(c.Multiple(n))) <==> n % L != 0
  {
    hide FromLE, Canonical, SmallOrder, Curve.Mul, Curve.Encode, Curve.Multiple, Curve.LawfulGroup;
    hide Curve.LawfulOrder, Curve.LawfulField;
    var e := c.Encode(c.Multiple(n));
    assert c.decode(e) == Some(c.Multiple(n));
    EncodingIsCanonical(c, c.Multiple(n));
    SmallOrderMultiple(c, n);
    c.MultipleMul(L, n);
    c.MultipleZero(L * n);
    MultipleOfL(n);
  }

  lemma {:induction false} MultipleOfL(n: int)
    ensures (L * n) % L == 0
  {
    DivModUnique(L * n, L, n, 0);
  }

  lemma {:induction false} ReplaceSubtrahend(s: int, x: int, p: int, t: int)
    requires Cong(L, p, t) && Cong(L, s, x - p)
    ensures Cong(L, s, x - t)
  {
    hide Cong;
    CongRefl(L, x);
    CongAdd(L, x, x, p, t);
    CongTrans(L, s, x - p, x - t);
  }

  /** Reduced differences and products are congruent to those of what they stand for. */
  lemma {:induction false} ScalarDifference(x: Key, a: Key, h: Key)
    ensures FromLE(ScalarSub(x, ScalarMul(a, h))) < L
    ensures Cong(L, FromLE(ScalarSub(x, ScalarMul(a, h))), FromLE(x) - FromLE(a) * FromLE(h))
  {
    hide FromLE, Pow256, Cong, Scalar;
    var p := ScalarMul(a, h);
    ScalarCong(FromLE(a) * FromLE(h));
    ScalarCong(FromLE(x) - FromLE(p));
    ReplaceSubtrahend(FromLE(ScalarSub(x, p)), FromLE(x), FromLE(p), FromLE(a) * FromLE(h));
  }

  /** What a generated signature consists of; the nonce point is never the neutral element. */
  lemma {:induction false} GeneratedParts<Pt(!new)>(c: Curve<Pt>, h: Hashes, prefix: Key, keys: Keypair)
    requires c.Lawful()
    ensures FromLE(NonceOf(h, prefix, keys)) % L != 0
    ensures Generated(c, h, prefix, keys).c
            == Challenge(h, prefix, keys.pub, c.Encode(c.Multiple(FromLE(NonceOf(h, prefix, keys)))))
    ensures FromLE(Generated(c, h, prefix, keys).c) < L && FromLE(Generated(c, h, prefix, keys).r) < L
    ensures Cong(L, FromLE(Generated(c, h, prefix, keys).r),
                 FromLE(NonceOf(h, prefix, keys)) - FromLE(keys.sec) * FromLE(Generated(c, h, prefix, keys).c))
  {
    hide FromLE, Clamped, BaseMul, ScalarMul, ScalarSub, Curve.Mul, Curve.Encode, Curve.Multiple, Cong;
    hide Curve.Lawful, ScalarReduce;
    ClampedValue(ScalarReduce(h.blake64(h.blake32(keys.sec) + keys.pub + prefix)));
    var x := NonceOf(h, prefix, keys);
    BaseMulEncodes(c, x);
    ReducedBelowL(h.fast(prefix + keys.pub + BaseMul(c, x)) + Zeros(32));
    ScalarDifference(x, keys.sec, Generated(c, h, prefix, keys).c);
  }

  lemma {:induction false} ReducedBelowL(b: bytes)
    ensures FromLE(ScalarReduce(b)) < L
  {
  }

  function RecoveredExponent(x: int, ch: int, a: int, b: int): int {
    x + ch * (b - a)
  }

  /** The point that checking recovers: r G + c B for B = b G. */
  lemma {:induction false} RecoveredPoint<Pt(!new)>(c: Curve<Pt>, r: nat, ch: nat, x: int, a: int, b: int)
    requires c.Lawful() && Cong(L, r, x - a * ch)
    ensures c.add(c.Multiple(r), c.Mul(ch, c.Multiple(b))) == c.Multiple(RecoveredExponent(x, ch, a, b))
  {
    hide Curve.Mul, Curve.Multiple, Curve.LawfulGroup, Curve.LawfulOrder, Curve.LawfulField, Cong;
    c.MultipleMul(ch, b);
    c.MultipleAdd(r, ch * b);
    CongRefl(L, ch * b);
    CongAdd(L, r, x - a * ch, ch * b, ch * b);
    assert x - a * ch + ch * b == x + ch * (b - a);
    c.MultipleEqual(r + ch * b, x + ch * (b - a));
  }

  /** Checking reduced scalars under the key b G, when r G + c (b G) = e G. */
  lemma {:induction false} AcceptsMultiple<Pt(!new)>(
      c: Curve<Pt>, h: Hashes, sig: Signature, prefix: Key, pub: Key, b: int, e: int)
    requires c.Lawful() && pub == c.Encode(c.Multiple(b)) && FromLE(sig.r) < L && FromLE(sig.c) < L
    requires c.add(c.Multiple(FromLE(sig.r)), c.Mul(FromLE(sig.c), c.Multiple(b))) == c.Multiple(e)
    ensures Accepts(c, h, sig, prefix, pub)
            <==> && FromLE(sig.r) != 0 && !Vanishes(FromLE(sig.c), b) && e % L != 0
                 && Challenge(h, prefix, pub, c.Encode(c.Multiple(e))) == sig.c
  {
    hide FromLE, Curve.Mul, Curve.Encode, Curve.Multiple, Curve.LawfulGroup, Curve.LawfulOrder, Curve.LawfulField;
    hide Challenge, ValidPoint, Cong;
    var r, ch := FromLE(sig.r), FromLE(sig.c);
    assert c.decode(pub) == Some(c.Multiple(b));
    hide Curve.LawfulEncoding;
    SmallResidueOf255(r);
    SmallResidueOf255(ch);
    c.MultipleOfNat(r);
    c.MultipleZero(r);
    c.MultipleMul(ch, b);
    c.MultipleZero(ch * b);
    ValidMultiple(c, b);
    ValidMultiple(c, e);
    if ch == 0 || b % L == 0 {
      VanishingFactor(ch, b);
    }
    BelowL(r);
  }

  /** When a signature by the exponent a is accepted under the public key b G: the two scalars and
      b must not vanish, and the point x + c (b - a) must be proper and hash to c again. */
  lemma {:induction false} CheckGenerated<Pt(!new)>(c: Curve<Pt>, h: Hashes, prefix: Key, keys: Keypair, b: int)
    requires c.Lawful() && keys.pub == c.Encode(c.Multiple(b))
    ensures var sig := Generated(c, h, prefix, keys);
            var e := RecoveredExponent(FromLE(NonceOf(h, prefix, keys)), FromLE(sig.c), FromLE(keys.sec), b);
            Accepts(c, h, sig, prefix, keys.pub)
            <==> && FromLE(sig.r) != 0 && !Vanishes(FromLE(sig.c), b) && e % L != 0
                 && Challenge(h, prefix, keys.pub, c.Encode(c.Multiple(e))) == sig.c
  {
    hide FromLE, Curve.Mul, Curve.Encode, Curve.Multiple, Curve.Lawful, NonceOf, Generated, Challenge, Accepts, Cong;
    hide Vanishes, RecoveredExponent;
    var sig := Generated(c, h, prefix, keys);
    var r, ch, x := FromLE(sig.r), FromLE(sig.c), FromLE(NonceOf(h, prefix, keys));
    GeneratedParts(c, h, prefix, keys);
    RecoveredPoint(c, r, ch, x, FromLE(keys.sec), b);
    AcceptsMultiple(c, h, sig, prefix, keys.pub, b, RecoveredExponent(x, ch, FromLE(keys.sec), b));
  }

  /** With the public key of the secret key, checking accepts unless r or a c vanishes. */
  lemma {:induction false} GenerateCheck<Pt(!new)>(c: Curve<Pt>, h: Hashes, prefix: Key, keys: Keypair)
    requires c.Lawful() && keys.pub == c.Encode(c.Mul(FromLE(keys.sec), c.base))
    ensures var sig := Generated(c, h, prefix, keys);
            Accepts(c, h, sig, prefix, keys.pub)
            <==> FromLE(sig.r) != 0 && !Vanishes(FromLE(sig.c), FromLE(keys.sec))
  {
    hide FromLE, Curve.Mul, Curve.Encode, Curve.Multiple, Curve.LawfulGroup, Curve.LawfulOrder, Curve.LawfulField;
    hide NonceOf, Generated, Challenge, Accepts, Cong, Vanishes, RecoveredExponent;
    c.MultipleOfNat(FromLE(keys.sec));
    CheckGenerated(c, h, prefix, keys, FromLE(keys.sec));
    GeneratedParts(c, h, prefix, keys);
    SameExponent(FromLE(NonceOf(h, prefix, keys)), FromLE(Generated(c, h, prefix, keys).c), FromLE(keys.sec));
  }

  lemma {:induction false} SameExponent(x: int, ch: int, a: int)
    ensures RecoveredExponent(x, ch, a, a) == x
  {
    assert ch * (a - a) == 0;
  }

  /** For a prime L: unless r, c or a vanishes. */
  lemma {:induction false} GenerateCheckPrime<Pt(!new)>(c: Curve<Pt>, h: Hashes, prefix: Key, keys: Keypair)
    requires c.Lawful() && PrimeModulus(L) && keys.pub == c.Encode(c.Mul(FromLE(keys.sec), c.base))
    ensures var sig := Generated(c, h, prefix, keys);
            Accepts(c, h, sig, prefix, keys.pub)
            <==> FromLE(sig.r) != 0 && FromLE(sig.c) != 0 && FromLE(keys.sec) % L != 0
  {
    hide FromLE, Curve.Mul, Curve.Encode, Curve.Lawful, NonceOf, Generated, Accepts, Cong, PrimeModulus, Vanishes;
    GenerateCheck(c, h, prefix, keys);
    GeneratedParts(c, h, prefix, keys);
    var ch := FromLE(Generated(c, h, prefix, keys).c);
    assert ch < L;
    ProductVanishes(ch, FromLE(keys.sec), 0);
  }

  /** The public key of a stored secret key, which loses the top bit of the secret. */
  function LegacyPubkey<Pt(!new)>(c: Curve<Pt>, sec: Key): (pub: Key) {
    BaseMul(c, sec)
  }

  /** It belongs to the scalar that signs exactly if that bit is clear. */
  lemma {:induction false} LegacyPubkeyMatches<Pt(!new)>(c: Curve<Pt>, sec: Key)
    requires c.Lawful()
    ensures LegacyPubkey(c, sec) == c.Encode(c.Mul(FromLE(sec), c.base)) <==> FromLE(sec) < TWO_255
  {
    hide FromLE, Curve.Mul, Curve.Encode, Curve.Multiple, Curve.LawfulGroup, Curve.LawfulOrder, Curve.LawfulField, Cong;
    var a := FromLE(sec);
    var low := a % TWO_255;
    if c.Encode(c.Mul(low, c.base)) == c.Encode(c.Mul(a, c.base)) {
      c.EncodeInjective(c.Mul(low, c.base), c.Mul(a, c.base));
      c.MultipleOfNat(a);
      c.MultipleOfNat(low);
      c.MultipleEqual(low, a);
    }
    KeyBound(sec);
    TopBitMatters(a);
  }

  /** Signing with a stored secret and checking under the public key computed from it: below 2^255
      only the three zero cases are refused; from 2^255 on, the point recovered is another one
      and acceptance needs it to give the same challenge again. */
  lemma {:induction false} LegacySignCheck<Pt(!new)>(c: Curve<Pt>, h: Hashes, prefix: Key, sec: Key)
    requires c.Lawful() && PrimeModulus(L)
    ensures var keys := Keypair(LegacyPubkey(c, sec), sec);
            var sig := Generated(c, h, prefix, keys);
            var a := FromLE(sec);
            var low := a % TWO_255;
            var x := FromLE(NonceOf(h, prefix, keys));
            var e := RecoveredExponent(x, FromLE(sig.c), a, low);
            && (a < TWO_255 ==>
                  (Accepts(c, h, sig, prefix, keys.pub)
                   <==> FromLE(sig.r) != 0 && FromLE(sig.c) != 0 && a % L != 0))
            && (a >= TWO_255 ==>
                  (Accepts(c, h, sig, prefix, keys.pub)
                   <==> && FromLE(sig.r) != 0 && FromLE(sig.c) != 0 && low % L != 0 && e % L != 0
                        && Challenge(h, prefix, keys.pub, c.Encode(c.Multiple(e))) == sig.c))
            && (a >= TWO_255 && FromLE(sig.c) != 0 ==> c.Multiple(e) != c.Multiple(x))
  {
    hide FromLE, Curve.Mul, Curve.Encode, Curve.Multiple, Curve.Lawful, NonceOf, Generated, Challenge, Accepts, Cong;
    hide PrimeModulus, Vanishes, RecoveredExponent;
    var keys := Keypair(LegacyPubkey(c, sec), sec);
    var sig := Generated(c, h, prefix, keys);
    var a := FromLE(sec);
    var low := a % TWO_255;
    GeneratedParts(c, h, prefix, keys);
    if a < TWO_255 {
      LegacyPubkeyMatches(c, sec);
      GenerateCheckPrime(c, h, prefix, keys);
    } else {
      LowMultiple(c, low);
      CheckGenerated(c, h, prefix, keys, low);
      ProductVanishes(FromLE(sig.c), low, 0);
      if FromLE(sig.c) != 0 {
        OtherPoint(c, FromLE(NonceOf(h, prefix, keys)), FromLE(sig.c), sec);
      }
    }
  }

  lemma {:induction false} LowMultiple<Pt(!new)>(c: Curve<Pt>, low: nat)
    requires c.Lawful()
    ensures c.Encode(c.Mul(low, c.base)) == c.Encode(c.Multiple(low))
  {
    c.MultipleOfNat(low);
  }

  /** Without the top bit of the secret the recovered point differs from the nonce point. */
  lemma {:induction false} OtherPoint<Pt(!new)>(c: Curve<Pt>, x: int, ch: nat, sec: Key)
    requires c.Lawful() && PrimeModulus(L) && 0 < ch < L && FromLE(sec) >= TWO_255
    ensures c.Multiple(RecoveredExponent(x, ch, FromLE(sec), FromLE(sec) % TWO_255)) != c.Multiple(x)
  {
    hide FromLE, Curve.Mul, Curve.Multiple, Curve.LawfulEncoding, Curve.LawfulField, PrimeModulus, Cong;
    var a := FromLE(sec);
    var low := a % TWO_255;
    KeyBound(sec);
    TopBitMatters(a);
    CongSameMod(L, low, a);
    ProductVanishes(ch, low, a);
    var e := RecoveredExponent(x, ch, a, low);
    assert e - x == ch * (low - a);
    CongUnfold(e, x, ch * (low - a));
    c.MultipleEqual(e, x);
  }

  lemma {:induction false} TopBitMatters(a: nat)
    requires a < TWO_256
    ensures Cong(L, a % TWO_255, a) <==> a < TWO_255
    ensures a < TWO_255 ==> a % TWO_255 == a
  {
    if a < TWO_255 {
      SmallResidueOf255(a);
      CongRefl(L, a);
    } else {
      DivModUnique(a, TWO_255, 1, a - TWO_255);
      assert TWO_255 % L != 0;
      CongUnfold(a % TWO_255, a, TWO_255);
    }
  }

  // ---------- What is hashed ----------

  /** 96 bytes: three keys, hashes or points, one after the other. */
  predicate HashInput(t: bytes, a: Key, b: Key, c: Key) {
    |t| == 96 && t[..32] == a && t[32..64] == b && t[64..] == c
  }

  lemma {:induction false} ChallengeOf(h: Hashes, prefix: Key, pub: Key, X: Key, t: bytes)
    requires HashInput(t, prefix, pub, X)
    ensures FromLE(Challenge(h, prefix, pub, X)) == FromLE(h.fast(t)) % L
  {
    hide FromLE, HashToScalar;
    assert t == prefix + pub + X;
    HashToScalarValue(h, t);
  }

  /** A signature by the reduced scalars under the key b G is accepted exactly if r, c b and e do
      not vanish and c is the hash of prefix, key and e G, where e G is r G + c (b G). */
  lemma {:induction false} AcceptsDigest<Pt(!new)>(
      c: Curve<Pt>, h: Hashes, sig: Signature, prefix: Key, pub: Key, b: int, e: int, t: bytes)
    requires c.Lawful() && pub == c.Encode(c.Multiple(b)) && FromLE(sig.r) < L && FromLE(sig.c) < L
    requires c.add(c.Multiple(FromLE(sig.r)), c.Mul(FromLE(sig.c), c.Multiple(b))) == c.Multiple(e)
    requires HashInput(t, prefix, pub, c.Encode(c.Multiple(e)))
    ensures Accepts(c, h, sig, prefix, pub)
            <==> && FromLE(sig.r) != 0 && !Vanishes(FromLE(sig.c), b) && e % L != 0
                 && FromLE(sig.c) == FromLE(h.fast(t)) % L
  {
    hide FromLE, Curve.Lawful, Curve.Mul, Curve.Encode, Curve.Multiple, Accepts, Challenge, Vanishes, HashInput;
    AcceptsMultiple(c, h, sig, prefix, pub, b, e);
    var ch := Challenge(h, prefix, pub, c.Encode(c.Multiple(e)));
    ChallengeOf(h, prefix, pub, c.Encode(c.Multiple(e)), t);
    if FromLE(sig.c) == FromLE(ch) {
      FromLEInjective(sig.c, ch);
    }
  }

  /** The point r G + c A that checking recovers from a key that is a point. */
  function CheckedPoint<Pt(!new)>(c: Curve<Pt>, sig: Signature, pub: Key): (X: Key)
    requires c.decode(pub).Some?
  {
    c.Encode(c.add(c.Mul(FromLE(sig.r) % TWO_255, c.base), c.Mul(FromLE(sig.c) % TWO_255, c.decode(pub).value)))
  }

  /** In every accepted signature c is the hash of the prefix hash, the key and r G + c A. */
  lemma {:induction false} AcceptedDigest<Pt(!new)>(
      c: Curve<Pt>, h: Hashes, sig: Signature, prefix: Key, pub: Key, t: bytes)
    requires c.decode(pub).Some? && HashInput(t, prefix, pub, CheckedPoint(c, sig, pub))
    requires Accepts(c, h, sig, prefix, pub)
    ensures FromLE(sig.c) == FromLE(h.fast(t)) % L
  {
    hide FromLE, Curve.Mul, Curve.Encode, ValidPoint, Challenge, HashInput;
    ChallengeOf(h, prefix, pub, CheckedPoint(c, sig, pub), t);
  }

  /** A signature accepted for one prefix hash is refused for every other one whose digest differs
      modulo L. */
  lemma {:induction false} OtherPrefixRefused<Pt(!new)>(
      c: Curve<Pt>, h: Hashes, sig: Signature, m: Key, n: Key, pub: Key, t: bytes, u: bytes)
    requires c.decode(pub).Some?
    requires HashInput(t, m, pub, CheckedPoint(c, sig, pub)) && HashInput(u, n, pub, CheckedPoint(c, sig, pub))
    requires FromLE(h.fast(t)) % L != FromLE(h.fast(u)) % L
    requires Accepts(c, h, sig, m, pub)
    ensures !Accepts(c, h, sig, n, pub)
  {
    hide FromLE, Accepts, HashInput, CheckedPoint;
    AcceptedDigest(c, h, sig, m, pub, t);
    if Accepts(c, h, sig, n, pub) {
      AcceptedDigest(c, h, sig, n, pub, u);
      assert false;
    }
  }

  lemma {:induction false} NonceFrom(h: Hashes, prefix: Key, keys: Keypair, w: bytes, n: Key)
    requires HashInput(w, h.blake32(keys.sec), keys.pub, prefix) && FromLE(n) == FromLE(h.blake64(w)) % L
    ensures NonceOf(h, prefix, keys) == Clamped(n)
  {
    hide FromLE, Pow256, Clamped;
    assert w == h.blake32(keys.sec) + keys.pub + prefix;
    FromLEInjective(n, ScalarReduce(h.blake64(w)));
  }

  /** The parts of a generated signature: the nonce from the hash of the hashed secret, the key and
      the prefix hash, c from the hash of prefix hash, key and nonce point. */
  lemma {:induction false} GeneratedDigests<Pt(!new)>(
      c: Curve<Pt>, h: Hashes, prefix: Key, keys: Keypair, w: bytes, n: Key, t: bytes)
    requires c.Lawful()
    requires HashInput(w, h.blake32(keys.sec), keys.pub, prefix)
    requires FromLE(n) == FromLE(h.blake64(w)) % L
    requires HashInput(t, prefix, keys.pub, c.Encode(c.Multiple(FromLE(Clamped(n)))))
    ensures var sig := Generated(c, h, prefix, keys);
            && FromLE(sig.c) == FromLE(h.fast(t)) % L
            && FromLE(sig.r) < L
            && Cong(L, FromLE(sig.r), FromLE(Clamped(n)) - FromLE(keys.sec) * FromLE(sig.c))
  {
    hide FromLE, Clamped, Curve.Lawful, Curve.Encode, Curve.Multiple, Generated, Challenge, Cong, NonceOf;
    GeneratedParts(c, h, prefix, keys);
    NonceFrom(h, prefix, keys, w, n);
    ChallengeOf(h, prefix, keys.pub, c.Encode(c.Multiple(FromLE(Clamped(n)))), t);
  }

  /** Zero scalars, and keys that are not canonical, no point, of small order or outside the
      prime-order subgroup are refused. */
  lemma {:induction false} ImproperRefused<Pt(!new)>(
      c: Curve<Pt>, h: Hashes, sig: Signature, prefix: Key, pub: Key)
    requires || FromLE(sig.r) == 0 || FromLE(sig.c) == 0
             || FromLE(pub) % TWO_255 >= P
             || c.decode(pub).None?
             || c.Mul(8, c.decode(pub).value) == c.zero
             || c.Mul(L, c.decode(pub).value) != c.zero
    ensures !Accepts(c, h, sig, prefix, pub)
  {
    hide FromLE, Curve.Mul, Curve.Encode, Challenge;
  }

  // ---------- Signatures as text ----------

  /** 86 base64 digits, or these and "==". */
  function FromBase64Signature(s: bytes): (sig: Result<Signature>) {
    if !IsBase64(s) then Err(NotBase64)
    else if !(|s| == 86 || (|s| == 88 && s[86..] == [EQUALS, EQUALS])) then Err(WrongSignatureSize)
    else
      SignatureText(s);
      var data := FromBase64(s);
      Ok(Signature(data[..32], data[32..]))
  }

  /** The accepted texts, and the two errors. */
  lemma {:induction false} SignatureTexts(s: bytes)
    ensures var r := FromBase64Signature(s);
            && (r.Ok? <==> IsBase64(s) && (|s| == 86 || (|s| == 88 && s[86] == 0x3D && s[87] == 0x3D)))
            && (r == Err(NotBase64) <==> !IsBase64(s))
            && (r.Err? ==> r.error in {NotBase64, WrongSignatureSize})
  {
    hide IsBase64, FromDigits;
    if |s| == 88 {
      assert s[86..] == [s[86], s[87]];
    }
  }

  /** Every accepted text holds exactly the 64 bytes of a signature. */
  lemma {:induction false} SignatureText(s: bytes)
    requires IsBase64(s) && (|s| == 86 || (|s| == 88 && s[86..] == [EQUALS, EQUALS]))
    ensures |FromBase64(s)| == 64
  {
    if |s| == 88 {
      assert s[86] == s[86..][0] && s[87] == s[86..][1];
    }
    assert |StripPadding(s)| == 86;
  }

  /** The text of a signature, padded or not, loads it back. */
  lemma {:induction false} SignatureRoundTrip(sig: Signature, padded: bool)
    ensures FromBase64Signature(ToBase64(sig.c + sig.r, padded)) == Ok(sig)
  {
    hide ToDigits;
    var data := sig.c + sig.r;
    var s := ToBase64(data, padded);
    Base64RoundTrip(data, padded);
    Base64Length(data);
    assert |Base64Chars(data)| == 86;
    assert padded ==> s == Base64Chars(data) + [EQUALS, EQUALS];
    assert data[..32] == sig.c && data[32..] == sig.r;
  }
}
