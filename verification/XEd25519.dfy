/** XEd25519: Ed25519 signatures made and checked with X25519 keys. */
module XEd25519 {
  import opened Wrappers
  import opened Bytes
  import opened Buffers
  import opened Modular
  import opened Curves
  import opened CurveMaps
  import opened Scalars

  /** The personalised Blake2b of the nonce, and SHA-512. */
  datatype Hashes = Hashes(nonce: bytes -> Wide, sha512: bytes -> Wide)

  // ---------- Branch-free selection ----------

  method ConstantTimeAssign(f: array<byte>, g: array<byte>, b: bool)
    requires f.Length == g.Length
    modifies f
    ensures f[..] == if b then old(g[..]) else old(f[..])
  {
    hide Xor, And;
    ghost var f0, g0 := f[..], g[..];
    var n := f.Length;
    var x := new byte[n];
    for i := 0 to n
      invariant f[..] == f0 && g[..] == g0
      invariant forall j :: 0 <= j < i ==> x[j] == Xor(f0[j], g0[j])
    {
      x[i] := Xor(f[i], g[i]);
    }
    var mask: byte := (0 - if b then 1 else 0) % 256;
    for i := 0 to n
      invariant f[..] == f0
      invariant forall j :: 0 <= j < i ==> x[j] == And(Xor(f0[j], g0[j]), mask)
      invariant forall j :: i <= j < n ==> x[j] == Xor(f0[j], g0[j])
    {
      x[i] := And(x[i], mask);
    }
    for i := 0 to n
      invariant forall j :: 0 <= j < n ==> x[j] == And(Xor(f0[j], g0[j]), mask)
      invariant forall j :: 0 <= j < i ==> f[j] == if b then g0[j] else f0[j]
      invariant forall j :: i <= j < n ==> f[j] == f0[j]
    {
      XorMasked(f0[i], g0[i]);
      f[i] := Xor(f[i], x[i]);
    }
  }

  // ---------- Keys ----------

  /** The X25519 public key of a private key: the u coordinate of the clamped multiple. */
  function X25519Pubkey<Pt(!new)>(c: Curve<Pt>, k: Key): (u: Key) {
    ToLE(MontgomeryU(c, c.y(c.Mul(FromLE(Clamped(k)), c.base))), 32)
  }

  /** The Ed25519 public key of an X25519 public key; the sign bit is zero. */
  function EdPubkey<Pt(!new)>(c: Curve<Pt>, u: Key): (e: Key) {
    ToLE(EdwardsY(c, FromLE(u) % TWO_255 % P), 32)
  }

  method Pubkey<Pt(!new)>(c: Curve<Pt>, u: Key) returns (e: Key)
    ensures e == EdPubkey(c, u)
  {
    var y := MontxToEdy(c, FromLE(u) % TWO_255 % P);
    e := ToLE(y, 32);
  }

  predicate Negative<Pt(!new)>(c: Curve<Pt>, k: Key) {
    BaseMulClamped(c, k)[31] / 128 == 1
  }

  /** The public key that goes into the hash. */
  function PublicPoint<Pt(!new)>(c: Curve<Pt>, k: Key): (e: Key) {
    var e := BaseMulClamped(c, k);
    e[31 := And(e[31], 127)]
  }

  /** The scalar used to sign: the stored key, not clamped, or its negation. */
  function SigningScalar<Pt(!new)>(c: Curve<Pt>, k: Key): (a: Key) {
    if Negative(c, k) then ScalarNegate(k) else k
  }

  // ---------- Signing ----------

  function NonceScalar(h: Hashes, a: Key, msg: bytes, random: Wide): (r: Key) {
    ScalarReduce(h.nonce(a + msg + random))
  }

  function Hram(h: Hashes, R: Key, A: Key, msg: bytes): (s: Key) {
    ScalarReduce(h.sha512(R + A + msg))
  }

  /** R || r + H(R || A || M) a. */
  function Assembled(h: Hashes, R: Key, A: Key, a: Key, r: Key, msg: bytes): (s: Wide) {
    R + ScalarAdd(ScalarMul(Hram(h, R, A, msg), a), r)
  }

  function Signature<Pt(!new)>(c: Curve<Pt>, h: Hashes, k: Key, msg: bytes, random: Wide): (s: Wide) {
    var a := SigningScalar(c, k);
    var r := NonceScalar(h, a, msg, random);
    Assembled(h, BaseMul(c, r), PublicPoint(c, k), a, r, msg)
  }

  method Sign<Pt(!new)>(c: Curve<Pt>, h: Hashes, k: Key, msg: bytes, random: Wide)
    returns (signature: array<byte>)
    ensures fresh(signature) && signature[..] == Signature(c, h, k, msg, random)
  {
    hide Assembled, NonceScalar, Hram, Splice, And, BaseMul, BaseMulClamped, ScalarNegate;
    var A := new byte[32];
    SpliceEnd(A[..], 0, BaseMulClamped(c, k));
    WriteAt(A, 0, BaseMulClamped(c, k));
    assert A[..] == BaseMulClamped(c, k);
    var negative := A[31] / 128 == 1;
    A[31] := And(A[31], 127);
    assert A[..] == PublicPoint(c, k);

    var a, neg_a := new byte[32], new byte[32];
    SpliceEnd(a[..], 0, k);
    WriteAt(a, 0, k);
    assert a[..] == k;
    SpliceEnd(neg_a[..], 0, ScalarNegate(a[..]));
    WriteAt(neg_a, 0, ScalarNegate(a[..]));
    assert neg_a[..] == ScalarNegate(k);
    ConstantTimeAssign(a, neg_a, negative);
    assert a[..] == SigningScalar(c, k);

    var r := NonceScalar(h, a[..], msg, random);
    signature := new byte[64];
    SplicePrefix(signature[..], 0, BaseMul(c, r));
    WriteAt(signature, 0, BaseMul(c, r));
    assert signature[..32] == BaseMul(c, r);
    FillScalar(h, signature, A[..], a[..], r, msg);
  }

  /** The second half of the buffer holds the hash, then h a, then r + h a. */
  method FillScalar(h: Hashes, signature: array<byte>, A: Key, a: Key, r: Key, msg: bytes)
    requires signature.Length == 64
    modifies signature
    ensures signature[..] == Assembled(h, old(signature[..32]), A, a, r, msg)
  {
    hide Splice, Hram, ScalarMul, ScalarAdd;
    ghost var R: Key := signature[..32];
    ghost var S: Key := Hram(h, R, A, msg);
    SpliceEnd(signature[..], 32, S);
    WriteAt(signature, 32, Hram(h, signature[..32], A, msg));
    assert signature[..] == R + S;
    SpliceEnd(signature[..], 32, ScalarMul(S, a));
    WriteAt(signature, 32, ScalarMul(signature[32..], a));
    S := ScalarMul(S, a);
    assert signature[..] == R + S;
    SpliceEnd(signature[..], 32, ScalarAdd(S, r));
    WriteAt(signature, 32, ScalarAdd(signature[32..], r));
  }

  // ---------- Verification, RFC 8032 section 5.1.7 ----------

  /** Besides the equation S B = R + h A, libsodium refuses a scalar S that is not reduced, a key
      that is not canonical, and a key or an R of small order. */
  predicate Accepts<Pt(==, !new)>(c: Curve<Pt>, h: Hashes, signature: Wide, A: Key, msg: bytes) {
    var R, S := signature[..32], signature[32..];
    && FromLE(S) < L
    && !SmallOrderKey(c, R)
    && Canonical(A)
    && !SmallOrderKey(c, A)
    && c.decode(A).Some?
    && c.Encode(c.add(c.Mul(FromLE(S), c.base), c.neg(c.Mul(FromLE(Hram(h, R, A, msg)), c.decode(A).value)))) == R
  }

  predicate Verify<Pt(==, !new)>(c: Curve<Pt>, h: Hashes, signature: Wide, u: Key, msg: bytes) {
    Accepts(c, h, signature, EdPubkey(c, u), msg)
  }

  // ---------- The public key ----------

  function PublicExponent<Pt(!new)>(c: Curve<Pt>, k: Key): int {
    var e := FromLE(Clamped(k));
    if Negative(c, k) then 0 - e else e
  }

  /** Whichever sign the multiple has, the hashed key encodes the multiple by the exponent that
      was negated along with it, and its sign bit is zero. */
  lemma {:induction false} PublicPointEncodes<Pt(!new)>(c: Curve<Pt>, k: Key)
    requires c.Lawful()
    ensures PublicPoint(c, k) == c.Encode(c.Multiple(PublicExponent(c, k)))
    ensures FromLE(PublicPoint(c, k)) == c.y(c.Mul(FromLE(Clamped(k)), c.base))
  {
    hide FromLE, Clamped, And, Curve.Mul, Curve.Encode, Curve.LawfulGroup, Curve.LawfulOrder, Curve.LawfulField;
    var e := FromLE(Clamped(k));
    var p := c.Mul(e, c.base);
    c.EncodeValue(p);
    TopBit(c.Encode(p));
    assert Negative(c, k) <==> c.odd(p);
    ClampedValue(k);
    c.NegFlipsSign(e);
    c.MultipleOfNat(e);
    c.MultipleNeg(e);
    var q := c.Multiple(PublicExponent(c, k));
    assert q == if c.odd(p) then c.neg(p) else p;
    c.EncodeValue(q);
    FromLEInjective(PublicPoint(c, k), c.Encode(q));
  }

  lemma {:induction false} EdPubkeyValue<Pt(!new)>(c: Curve<Pt>, y: nat)
    requires c.LawfulField() && PrimeModulus(P) && y < P && y != 1
    ensures FromLE(EdPubkey(c, ToLE(MontgomeryU(c, y), 32))) == y
  {
    hide FromLE, ToLE, EdwardsY, MontgomeryU, PrimeModulus, Curve.LawfulField;
    EdwardsRoundTrip(c, y);
    var u := MontgomeryU(c, y);
    LE32(u);
    Reduced(u);
    LE32(y);
  }

  lemma {:induction false} Reduced(u: nat)
    requires u < P
    ensures u % TWO_255 % P == u
  {
    SmallResidueOf255(u);
  }

  /** Verification recovers from the X25519 key the very key that was hashed when signing. */
  lemma {:induction false} PubkeyRecovered<Pt(!new)>(c: Curve<Pt>, k: Key)
    requires c.Lawful() && PrimeModulus(P)
    ensures EdPubkey(c, X25519Pubkey(c, k)) == PublicPoint(c, k)
  {
    hide FromLE, ToLE, Clamped, Curve.Mul, Curve.LawfulGroup, Curve.LawfulOrder, Curve.LawfulField;
    hide EdPubkey, MontgomeryU, PrimeModulus, PublicPoint;
    var e := FromLE(Clamped(k));
    ClampedValue(k);
    c.MulBaseZero(e);
    var y := c.y(c.Mul(e, c.base));
    assert y < P && y != 1;
    EdPubkeyValue(c, y);
    PublicPointEncodes(c, k);
    FromLEInjective(EdPubkey(c, X25519Pubkey(c, k)), PublicPoint(c, k));
  }

  // ---------- Completeness ----------

  /** What `a` stands for: the stored key or its opposite. */
  function SigningExponent<Pt(!new)>(c: Curve<Pt>, k: Key): int {
    if Negative(c, k) then 0 - FromLE(k) else FromLE(k)
  }

  lemma {:induction false} SigningScalarValue<Pt(!new)>(c: Curve<Pt>, k: Key)
    ensures Cong(L, FromLE(SigningScalar(c, k)), SigningExponent(c, k))
  {
    hide FromLE, Cong, Negative, ToLE;
    CongMod(L, 0 - FromLE(k));
    CongRefl(L, FromLE(k));
  }

  /** On a clamped key the chosen scalar belongs to the hashed key, whose sign bit is zero. */
  lemma {:induction false} ChosenScalar<Pt(!new)>(c: Curve<Pt>, k: Key)
    requires c.Lawful() && Clamped(k) == k
    ensures c.Encode(c.Mul(FromLE(SigningScalar(c, k)), c.base)) == PublicPoint(c, k)
    ensures PublicPoint(c, k)[31] < 128
  {
    hide FromLE, Clamped, Negative, Curve.Mul, Curve.Encode, Curve.Multiple, Cong, PublicPoint;
    hide Curve.LawfulGroup, Curve.LawfulOrder, Curve.LawfulEncoding, Curve.LawfulField, SigningScalar;
    hide SigningExponent, PublicExponent;
    PublicPointEncodes(c, k);
    ExponentDifference(c, k);
    SigningScalarValue(c, k);
    c.MultipleOfNat(FromLE(SigningScalar(c, k)));
    c.MultipleEqual(FromLE(SigningScalar(c, k)), PublicExponent(c, k));
    SignBitClear(c, k);
  }

  lemma {:induction false} SignBitClear<Pt(!new)>(c: Curve<Pt>, k: Key)
    ensures PublicPoint(c, k)[31] < 128
  {
    hide BaseMulClamped, And;
    AndMasks(BaseMulClamped(c, k)[31]);
  }

  /** S B - h A lands on R exactly if S is congruent to r + h times the exponent of A. */
  lemma {:induction false} Equation<Pt(!new)>(c: Curve<Pt>, s: nat, h: nat, a: int, r: int)
    requires c.Lawful()
    ensures c.Encode(c.add(c.Mul(s, c.base), c.neg(c.Mul(h, c.Multiple(a))))) == c.Encode(c.Multiple(r))
            <==> Cong(L, s, r + h * a)
  {
    hide Curve.Mul, Curve.Encode, Curve.Multiple, Curve.LawfulGroup, Curve.LawfulOrder, Curve.LawfulField, Cong;
    c.MultipleOfNat(s);
    c.MultipleMul(h, a);
    c.MultipleNeg(h * a);
    c.MultipleAdd(s, 0 - h * a);
    var p := c.Multiple(s - h * a);
    if c.Encode(p) == c.Encode(c.Multiple(r)) {
      c.EncodeInjective(p, c.Multiple(r));
    }
    c.MultipleEqual(s - h * a, r);
    Shift(s, r, h * a);
  }

  lemma {:induction false} Shift(s: int, r: int, d: int)
    ensures Cong(L, s - d, r) <==> Cong(L, s, r + d)
  {
    assert (s - d) - r == s - (r + d);
  }

  /** The hash in a signature by `k`. */
  function Challenge<Pt(!new)>(c: Curve<Pt>, h: Hashes, k: Key, msg: bytes, random: Wide): (s: Key) {
    Hram(h, Signature(c, h, k, msg, random)[..32], PublicPoint(c, k), msg)
  }

  function SignNonce<Pt(!new)>(c: Curve<Pt>, h: Hashes, k: Key, msg: bytes, random: Wide): (r: Key) {
    NonceScalar(h, SigningScalar(c, k), msg, random)
  }

  /** What a signature consists of: R encodes the nonce, and S is r + h a modulo L. */
  lemma {:induction false} SignatureParts<Pt(!new)>(c: Curve<Pt>, h: Hashes, k: Key, msg: bytes, random: Wide)
    requires c.Lawful()
    ensures Signature(c, h, k, msg, random)[..32] == c.Encode(c.Multiple(FromLE(SignNonce(c, h, k, msg, random))))
    ensures FromLE(Signature(c, h, k, msg, random)[32..]) < L
    ensures Cong(L, FromLE(Signature(c, h, k, msg, random)[32..]),
                 FromLE(SignNonce(c, h, k, msg, random))
                 + FromLE(Challenge(c, h, k, msg, random)) * SigningExponent(c, k))
  {
    hide FromLE, Curve.Mul, Curve.Encode, Curve.Multiple, Curve.LawfulGroup, Curve.LawfulOrder, Curve.LawfulField, Cong;
    hide SigningScalar, SigningExponent, PublicPoint, ScalarAdd, ScalarMul, Hram, BaseMul;
    var a, r := SigningScalar(c, k), SignNonce(c, h, k, msg, random);
    BaseMulEncodes(c, r);
    SigningScalarValue(c, k);
    ScalarSum(Challenge(c, h, k, msg, random), a, r, SigningExponent(c, k));
    SplitSignature(BaseMul(c, r), ScalarAdd(ScalarMul(Challenge(c, h, k, msg, random), a), r));
  }

  lemma {:induction false} SplitSignature(R: Key, S: Key)
    ensures (R + S)[..32] == R && (R + S)[32..] == S
  {
  }

  /** Any key of the subgroup and any signature with R = r B. */
  lemma {:induction false} AcceptsMultiple<Pt(!new)>(
      c: Curve<Pt>, h: Hashes, s: Wide, A: Key, x: int, r: int, msg: bytes)
    requires c.Lawful()
    requires A == c.Encode(c.Multiple(x)) && x % L != 0
    requires s[..32] == c.Encode(c.Multiple(r)) && FromLE(s[32..]) < L
    ensures Accepts(c, h, s, A, msg)
            <==> r % L != 0 && Cong(L, FromLE(s[32..]), r + FromLE(Hram(h, s[..32], A, msg)) * x)
  {
    hide FromLE, Curve.Mul, Curve.Encode, Curve.Multiple, Curve.LawfulGroup, Curve.LawfulOrder;
    hide Curve.LawfulField, Cong, SmallOrder, Canonical, Hram;
    assert c.decode(A) == Some(c.Multiple(x));
    assert c.decode(s[..32]) == Some(c.Multiple(r));
    hide Curve.LawfulEncoding;
    SmallOrderMultiple(c, x);
    SmallOrderMultiple(c, r);
    EncodingIsCanonical(c, c.Multiple(x));
    Equation(c, FromLE(s[32..]), FromLE(Hram(h, s[..32], A, msg)), x, r);
  }

  /** When the signing and the public exponent differ, their difference is k - clamp(k). */
  lemma {:induction false} SameChallenge(s: int, r: int, h: int, a: int, x: int, d: int)
    requires Cong(L, s, r + h * a) && (a - x == d || a - x == 0 - d)
    ensures Cong(L, s, r + h * x) <==> Vanishes(h, d)
  {
    hide Cong;
    var p := r + h * a;
    var q := r + h * x;
    assert p - q == h * (a - x);
    assert h * (0 - d) == 0 - h * d;
    CongSameMod(L, s, p); CongSameMod(L, s, q); CongSameMod(L, p, q);
    CongSameMod(L, h * d, 0); CongSameMod(L, 0, h * d);
    CongUnfold(p, q, h * d);
  }

  /** Completeness: a signature is accepted under its own public key exactly if the nonce is not
      zero and the challenge cannot tell the stored key from the clamped one. */
  lemma {:induction false} SignVerify<Pt(!new)>(c: Curve<Pt>, h: Hashes, k: Key, msg: bytes, random: Wide)
    requires c.Lawful() && PrimeModulus(P)
    ensures Verify(c, h, Signature(c, h, k, msg, random), X25519Pubkey(c, k), msg)
            <==> && FromLE(SignNonce(c, h, k, msg, random)) != 0
                 && Vanishes(FromLE(Challenge(c, h, k, msg, random)), FromLE(k) - FromLE(Clamped(k)))
  {
    hide FromLE, Curve.Mul, Curve.Encode, Curve.Multiple, Curve.Lawful, PrimeModulus, Cong, Vanishes;
    hide Clamped, Negative, Hram, Accepts, SigningExponent, PublicExponent, Challenge, SignNonce, Signature;
    hide PublicPoint, EdPubkey, X25519Pubkey;
    var s, A := Signature(c, h, k, msg, random), PublicPoint(c, k);
    var r, hr := FromLE(SignNonce(c, h, k, msg, random)), FromLE(Challenge(c, h, k, msg, random));
    var x, a := PublicExponent(c, k), SigningExponent(c, k);
    PubkeyRecovered(c, k);
    PublicPointEncodes(c, k);
    PublicExponentNotZero(c, k);
    SignatureParts(c, h, k, msg, random);
    AcceptsMultiple(c, h, s, A, x, r, msg);
    ExponentDifference(c, k);
    assert hr == FromLE(Hram(h, s[..32], A, msg)) by { ChallengeIsHram(c, h, k, msg, random); }
    SameChallenge(FromLE(s[32..]), r, hr, a, x, FromLE(k) - FromLE(Clamped(k)));
    NonceReduced(c, h, k, msg, random);
    BelowL(r);
  }

  lemma {:induction false} ChallengeIsHram<Pt(!new)>(c: Curve<Pt>, h: Hashes, k: Key, msg: bytes, random: Wide)
    ensures Challenge(c, h, k, msg, random) == Hram(h, Signature(c, h, k, msg, random)[..32], PublicPoint(c, k), msg)
  {
    hide Hram, Signature, PublicPoint;
  }

  lemma {:induction false} ExponentDifference<Pt(!new)>(c: Curve<Pt>, k: Key)
    ensures var d := FromLE(k) - FromLE(Clamped(k));
            var e := SigningExponent(c, k) - PublicExponent(c, k);
            e == d || e == 0 - d
  {
    hide FromLE, Clamped, Negative;
  }

  lemma {:induction false} NonceReduced<Pt(!new)>(c: Curve<Pt>, h: Hashes, k: Key, msg: bytes, random: Wide)
    ensures FromLE(SignNonce(c, h, k, msg, random)) < L
  {
    hide FromLE, SigningScalar;
  }

  lemma {:induction false} PublicExponentNotZero<Pt(!new)>(c: Curve<Pt>, k: Key)
    ensures PublicExponent(c, k) % L != 0
  {
    hide FromLE, Negative, Clamped, Cong;
    ClampedValue(k);
    var e: int := FromLE(Clamped(k));
    CongUnfold(0, e, e);
    CongSameMod(L, 0 - e, 0);
    CongUnfold(0 - e, 0, e);
  }

  /** Every clamped private key signs what its public key verifies. */
  lemma {:induction false} ClampedKeySignsAndVerifies<Pt(!new)>(
      c: Curve<Pt>, h: Hashes, k: Key, msg: bytes, random: Wide)
    requires c.Lawful() && PrimeModulus(P) && Clamped(k) == k
    ensures Verify(c, h, Signature(c, h, k, msg, random), X25519Pubkey(c, k), msg)
            <==> FromLE(SignNonce(c, h, k, msg, random)) != 0
  {
    hide FromLE, Curve.Lawful, PrimeModulus, Clamped, Verify, SignNonce, Signature, X25519Pubkey, Challenge, Vanishes;
    SignVerify(c, h, k, msg, random);
    VanishingFactor(FromLE(Challenge(c, h, k, msg, random)), FromLE(k) - FromLE(Clamped(k)));
  }

  /** For a prime L an unclamped key works only if it is congruent to the clamped one. */
  lemma {:induction false} UnclampedKey<Pt(!new)>(c: Curve<Pt>, h: Hashes, k: Key, msg: bytes, random: Wide)
    requires c.Lawful() && PrimeModulus(P) && PrimeModulus(L)
    ensures Verify(c, h, Signature(c, h, k, msg, random), X25519Pubkey(c, k), msg)
            <==> && FromLE(SignNonce(c, h, k, msg, random)) != 0
                 && (FromLE(Challenge(c, h, k, msg, random)) == 0 || FromLE(k) % L == FromLE(Clamped(k)) % L)
  {
    hide FromLE, Curve.Lawful, PrimeModulus, Clamped, Verify, SignNonce, Signature, X25519Pubkey, Cong;
    hide Challenge, Vanishes;
    SignVerify(c, h, k, msg, random);
    var hr: int := FromLE(Challenge(c, h, k, msg, random));
    ChallengeReduced(c, h, k, msg, random);
    ProductVanishes(hr, FromLE(k), FromLE(Clamped(k)));
  }

  lemma {:induction false} ChallengeReduced<Pt(!new)>(c: Curve<Pt>, h: Hashes, k: Key, msg: bytes, random: Wide)
    ensures FromLE(Challenge(c, h, k, msg, random)) < L
  {
    hide FromLE, PublicPoint, Signature;
  }

  /** Whatever the hash functions, the all-zero key works only with a zero challenge. */
  lemma {:induction false} ZeroKeyFails<Pt(!new)>(c: Curve<Pt>, h: Hashes, msg: bytes, random: Wide)
    requires c.Lawful() && PrimeModulus(P) && PrimeModulus(L)
    ensures Verify(c, h, Signature(c, h, NULL_KEY, msg, random), X25519Pubkey(c, NULL_KEY), msg)
            <==> && FromLE(SignNonce(c, h, NULL_KEY, msg, random)) != 0
                 && FromLE(Challenge(c, h, NULL_KEY, msg, random)) == 0
  {
    hide FromLE, Curve.Lawful, PrimeModulus, Clamped, Verify, SignNonce, Challenge, Signature, X25519Pubkey;
    UnclampedKey(c, h, NULL_KEY, msg, random);
    ZeroValue(32);
    ClampedValue(NULL_KEY);
  }

  /** For a key, a message and an R at most one S is accepted. */
  lemma {:induction false} ScalarIsUnique<Pt(!new)>(c: Curve<Pt>, h: Hashes, s: Wide, t: Wide, u: Key, msg: bytes)
    requires c.Lawful() && s[..32] == t[..32]
    requires Verify(c, h, s, u, msg) && Verify(c, h, t, u, msg)
    ensures s == t
  {
    hide FromLE, Curve.Mul, Curve.Encode, Curve.LawfulGroup, Curve.LawfulOrder, Curve.LawfulField, Hram, EdPubkey;
    var R, A := s[..32], EdPubkey(c, u);
    var q := c.neg(c.Mul(FromLE(Hram(h, R, A, msg)), c.decode(A).value));
    var m, n := FromLE(s[32..]), FromLE(t[32..]);
    c.EncodeInjective(c.add(c.Mul(m, c.base), q), c.add(c.Mul(n, c.base), q));
    c.CancelRight(c.Mul(m, c.base), c.Mul(n, c.base), q);
    c.MulBaseInjective(m, n);
    SameResidue(m, n);
    FromLEInjective(s[32..], t[32..]);
    assert s == s[..32] + s[32..] && t == t[..32] + t[32..];
  }

  lemma {:induction false} SameResidue(m: nat, n: nat)
    requires m < L && n < L && m % L == n % L
    ensures m == n
  {
  }

  // ---------- What is hashed ----------

  /** R, A and the message, one after the other. */
  predicate HashInput(t: bytes, R: Key, A: Key, msg: bytes) {
    |t| >= 64 && t[..32] == R && t[32..64] == A && t[64..] == msg
  }

  /** The scalar, the message and 64 random bytes, one after the other. */
  predicate NonceInput(t: bytes, a: Key, msg: bytes, random: Wide) {
    |t| == 96 + |msg| && t[..32] == a && t[32..32 + |msg|] == msg && t[32 + |msg|..] == random
  }

  lemma {:induction false} HramOf(h: Hashes, R: Key, A: Key, msg: bytes, t: bytes)
    requires HashInput(t, R, A, msg)
    ensures FromLE(Hram(h, R, A, msg)) == FromLE(h.sha512(t)) % L
  {
    hide FromLE;
    assert t == R + A + msg;
  }

  lemma {:induction false} NonceOf(h: Hashes, a: Key, msg: bytes, random: Wide, t: bytes)
    requires NonceInput(t, a, msg, random)
    ensures FromLE(NonceScalar(h, a, msg, random)) == FromLE(h.nonce(t)) % L
  {
    hide FromLE;
    assert t == a + msg + random;
  }

  /** A product with a reduced factor is congruent to the product. */
  lemma {:induction false} ReducedFactor(r: int, d: int, x: int)
    ensures Cong(L, r + (d % L) * x, r + d * x)
  {
    hide Cong;
    CongMod(L, d);
    CongRefl(L, x);
    CongRefl(L, r);
    CongMul(L, d % L, d, x, x);
    CongAdd(L, r, r, (d % L) * x, d * x);
  }

  lemma {:induction false} SameSide(s: int, a: int, b: int)
    requires Cong(L, a, b)
    ensures Cong(L, s, a) <==> Cong(L, s, b)
  {
    hide Cong;
    CongSym(L, a, b);
    if Cong(L, s, a) {
      CongTrans(L, s, a, b);
    }
    if Cong(L, s, b) {
      CongTrans(L, s, b, a);
    }
  }

  /** Acceptance for the key x B and R = r B is the congruence with the SHA-512 digest of R, A and
      the message. */
  lemma {:induction false} AcceptsDigest<Pt(!new)>(
      c: Curve<Pt>, h: Hashes, s: Wide, A: Key, x: int, r: int, msg: bytes, t: bytes)
    requires c.Lawful()
    requires A == c.Encode(c.Multiple(x)) && x % L != 0
    requires s[..32] == c.Encode(c.Multiple(r)) && FromLE(s[32..]) < L
    requires HashInput(t, s[..32], A, msg)
    ensures Accepts(c, h, s, A, msg) <==> r % L != 0 && Cong(L, FromLE(s[32..]), r + FromLE(h.sha512(t)) * x)
  {
    hide FromLE, Curve.Lawful, Curve.Encode, Curve.Multiple, Accepts, Hram, Cong, HashInput;
    AcceptsMultiple(c, h, s, A, x, r, msg);
    HramOf(h, s[..32], A, msg, t);
    ReducedFactor(r, FromLE(h.sha512(t)), x);
    SameSide(FromLE(s[32..]), r + FromLE(Hram(h, s[..32], A, msg)) * x, r + FromLE(h.sha512(t)) * x);
  }

  /** The parts of a signature: R from the digest of scalar, message and randomness, S from this
      and the digest of R, A and the message. */
  lemma {:induction false} SignatureDigests<Pt(!new)>(
      c: Curve<Pt>, h: Hashes, k: Key, msg: bytes, random: Wide, w: bytes, t: bytes)
    requires c.Lawful() && NonceInput(w, SigningScalar(c, k), msg, random)
    requires HashInput(t, Signature(c, h, k, msg, random)[..32], PublicPoint(c, k), msg)
    ensures var s := Signature(c, h, k, msg, random);
            && s[..32] == c.Encode(c.Multiple(FromLE(h.nonce(w))))
            && FromLE(s[32..]) < L
            && Cong(L, FromLE(s[32..]), FromLE(h.nonce(w)) + FromLE(h.sha512(t)) * SigningExponent(c, k))
  {
    hide FromLE, Curve.Lawful, Curve.Encode, Curve.Multiple, Signature, PublicPoint, SigningScalar, SigningExponent;
    hide Hram, NonceScalar, Cong, HashInput, NonceInput;
    var s := Signature(c, h, k, msg, random);
    var x := SigningExponent(c, k);
    SignatureParts(c, h, k, msg, random);
    NonceOf(h, SigningScalar(c, k), msg, random, w);
    HramOf(h, s[..32], PublicPoint(c, k), msg, t);
    var r, d: int := FromLE(h.nonce(w)), FromLE(h.sha512(t));
    SameMultiple(c, r);
    CongMod(L, r);
    ReducedFactor(r % L, d, x);
    CongRefl(L, d * x);
    CongAdd(L, r % L, r, d * x, d * x);
    SameSide(FromLE(s[32..]), r % L + (d % L) * x, r % L + d * x);
    SameSide(FromLE(s[32..]), r % L + d * x, r + d * x);
  }

  /** What fills the buffer: R stays, and S is r + d a for the digest d of R, A and the message. */
  lemma {:induction false} FilledDigest(h: Hashes, R: Key, A: Key, a: Key, r: Key, msg: bytes, t: bytes)
    requires HashInput(t, R, A, msg)
    ensures var s := Assembled(h, R, A, a, r, msg);
            && s[..32] == R && FromLE(s[32..]) < L
            && Cong(L, FromLE(s[32..]), FromLE(r) + FromLE(h.sha512(t)) * FromLE(a))
  {
    hide FromLE, Hram, ScalarAdd, ScalarMul, Cong, HashInput;
    var hr := Hram(h, R, A, msg);
    HramOf(h, R, A, msg, t);
    var S := ScalarAdd(ScalarMul(hr, a), r);
    SplitSignature(R, S);
    CongRefl(L, FromLE(a));
    ScalarSum(hr, a, r, FromLE(a));
    ReducedFactor(FromLE(r), FromLE(h.sha512(t)), FromLE(a));
    SameSide(FromLE(S), FromLE(r) + FromLE(hr) * FromLE(a), FromLE(r) + FromLE(h.sha512(t)) * FromLE(a));
  }

  lemma {:induction false} SameMultiple<Pt(!new)>(c: Curve<Pt>, n: nat)
    requires c.Lawful()
    ensures c.Multiple(n % L) == c.Multiple(n)
  {
    hide Curve.LawfulGroup, Curve.LawfulOrder, Curve.Mul;
    CongMod(L, n);
    c.MultipleEqual(n % L, n);
  }

  /** For a prime L, a signature accepted for one message is refused for every other one whose
      digest differs modulo L. */
  lemma {:induction false} OtherMessageRefused<Pt(!new)>(
      c: Curve<Pt>, h: Hashes, s: Wide, A: Key, x: int, m: bytes, n: bytes, t: bytes, u: bytes)
    requires c.Lawful() && PrimeModulus(L) && A == c.Encode(c.Multiple(x))
    requires HashInput(t, s[..32], A, m) && HashInput(u, s[..32], A, n)
    requires FromLE(h.sha512(t)) % L != FromLE(h.sha512(u)) % L
    requires Accepts(c, h, s, A, m)
    ensures !Accepts(c, h, s, A, n)
  {
    hide FromLE, Curve.Lawful, Curve.Encode, Curve.Multiple, Accepts, Hram, HashInput, PrimeModulus, Cong;
    HramOf(h, s[..32], A, m, t);
    HramOf(h, s[..32], A, n, u);
    if Accepts(c, h, s, A, n) {
      var a, b := FromLE(Hram(h, s[..32], A, m)), FromLE(Hram(h, s[..32], A, n));
      AcceptedPoint(c, h, s, A, x, m);
      AcceptedPoint(c, h, s, A, x, n);
      SamePoint(c, FromLE(s[32..]), a, b, x);
      assert false;
    }
  }

  /** What the equation says about R. */
  lemma {:induction false} AcceptedPoint<Pt(!new)>(c: Curve<Pt>, h: Hashes, s: Wide, A: Key, x: int, msg: bytes)
    requires c.Lawful() && A == c.Encode(c.Multiple(x)) && Accepts(c, h, s, A, msg)
    ensures x % L != 0
    ensures s[..32] == c.Encode(c.Multiple(FromLE(s[32..]) - FromLE(Hram(h, s[..32], A, msg)) * x))
  {
    hide FromLE, Curve.Mul, Curve.Encode, Curve.Multiple, Curve.LawfulGroup, Curve.LawfulOrder, Curve.LawfulField;
    hide Hram, SmallOrder, Cong;
    assert c.decode(A) == Some(c.Multiple(x));
    hide Curve.LawfulEncoding;
    SmallOrderMultiple(c, x);
    var e: int := FromLE(Hram(h, s[..32], A, msg)) * x;
    c.MultipleOfNat(FromLE(s[32..]));
    c.MultipleMul(FromLE(Hram(h, s[..32], A, msg)), x);
    c.MultipleNeg(e);
    c.MultipleAdd(FromLE(s[32..]), 0 - e);
  }

  lemma {:induction false} SamePoint<Pt(!new)>(c: Curve<Pt>, s: int, a: nat, b: nat, x: int)
    requires c.Lawful() && PrimeModulus(L) && x % L != 0 && a < L && b < L
    requires c.Encode(c.Multiple(s - a * x)) == c.Encode(c.Multiple(s - b * x))
    ensures a == b
  {
    hide Curve.Mul, Curve.Encode, Curve.Multiple, Curve.LawfulGroup, Curve.LawfulOrder, Curve.LawfulField;
    hide PrimeModulus, Cong;
    c.EncodeInjective(c.Multiple(s - a * x), c.Multiple(s - b * x));
    c.MultipleEqual(s - a * x, s - b * x);
    assert (s - a * x) - (s - b * x) == (b - a) * x;
    CongUnfold(s - a * x, s - b * x, (b - a) * x);
    NoZeroDivisors(L, b - a, x);
    CongUnfold(b, a, b - a);
    CongSameMod(L, b, a);
    BelowL(a);
    BelowL(b);
  }

  /** The same for X25519 keys. */
  lemma {:induction false} VerifyBindsMessage<Pt(!new)>(
      c: Curve<Pt>, h: Hashes, s: Wide, k: Key, m: bytes, n: bytes, t: bytes, u: bytes)
    requires c.Lawful() && PrimeModulus(P) && PrimeModulus(L)
    requires HashInput(t, s[..32], EdPubkey(c, X25519Pubkey(c, k)), m)
    requires HashInput(u, s[..32], EdPubkey(c, X25519Pubkey(c, k)), n)
    requires FromLE(h.sha512(t)) % L != FromLE(h.sha512(u)) % L
    requires Verify(c, h, s, X25519Pubkey(c, k), m)
    ensures !Verify(c, h, s, X25519Pubkey(c, k), n)
  {
    hide FromLE, Curve.Lawful, Curve.Encode, Curve.Multiple, Accepts, HashInput, PrimeModulus, EdPubkey, X25519Pubkey;
    hide PublicPoint, PublicExponent;
    PubkeyRecovered(c, k);
    PublicPointEncodes(c, k);
    OtherMessageRefused(c, h, s, PublicPoint(c, k), PublicExponent(c, k), m, n, t, u);
  }

  /** A scalar S that is not reduced, a key that is not canonical or no point, and a key or an R that
      the cofactor annihilates are refused. */
  lemma {:induction false} ImproperRefused<Pt(!new)>(c: Curve<Pt>, h: Hashes, s: Wide, A: Key, msg: bytes)
    requires || FromLE(s[32..]) >= L
             || FromLE(A) % TWO_255 >= P
             || c.decode(A).None?
             || c.Mul(8, c.decode(A).value) == c.zero
             || (c.decode(s[..32]).Some? && c.Mul(8, c.decode(s[..32]).value) == c.zero)
    ensures !Accepts(c, h, s, A, msg)
  {
    hide FromLE, Curve.Mul, Curve.Encode, Hram;
  }

  /** The X25519 key of a private key holds the u of the clamped multiple of the base point, and the
      Ed25519 key of an X25519 key the y of its u, both as little-endian numbers. */
  lemma {:induction false} KeyEquations<Pt(!new)>(c: Curve<Pt>, k: Key, v: Key)
    requires c.Lawful() && PrimeModulus(P)
    ensures var y := c.y(c.Mul(FromLE(Clamped(k)), c.base));
            var u := FromLE(X25519Pubkey(c, k));
            u < P && Cong(P, u * (1 - y), 1 + y)
    ensures var u := FromLE(v) % TWO_255 % P;
            var y := FromLE(EdPubkey(c, v));
            y < P && (u != P - 1 ==> Cong(P, y * (u + 1), u - 1))
  {
    hide FromLE, ToLE, Clamped, Curve.Mul, Curve.LawfulGroup, Curve.LawfulOrder, Curve.LawfulField;
    hide EdwardsY, MontgomeryU, PrimeModulus, Cong;
    var e := FromLE(Clamped(k));
    ClampedValue(k);
    c.MulBaseZero(e);
    var y := c.y(c.Mul(e, c.base));
    MontgomeryULaw(c, y);
    LE32(MontgomeryU(c, y));
    var u := FromLE(v) % TWO_255 % P;
    LE32(EdwardsY(c, u));
    if u != P - 1 {
      EdwardsYLaw(c, u);
    }
  }

  /** The top bit of an X25519 key does not matter. */
  lemma {:induction false} KeyTopBitIgnored<Pt(!new)>(c: Curve<Pt>, u: Key)
    ensures EdPubkey(c, u) == EdPubkey(c, u[31 := And(u[31], 127)])
  {
    hide FromLE, And, EdwardsY, ToLE;
    TopBit(u);
    var v := u[31 := And(u[31], 127)];
    ModTwice(FromLE(u));
    assert FromLE(v) % TWO_255 == FromLE(u) % TWO_255;
  }

  lemma {:induction false} ModTwice(n: nat)
    ensures n % TWO_255 % TWO_255 == n % TWO_255
  {
    SmallResidueOf255(n % TWO_255);
  }
}
