/** libsodium's scalar arithmetic modulo L on 32-byte little-endian strings, clamping, and
    multiplication of points by scalars. */
module Scalars {
  import opened Bytes
  import opened Modular
  import opened Curves

  /** A 64-byte digest or a 64-byte random string. */
  type Wide = b: bytes | |b| == 64 witness Zeros(64)

  // ---------- Bytes and values ----------

  lemma {:induction false} ZeroValue(n: nat)
    ensures FromLE(Zeros(n)) == 0
  {
    if n > 0 {
      ZeroValue(n - 1);
      assert Zeros(n)[1..] == Zeros(n - 1);
    }
  }

  lemma {:induction false} KeyBound(k: Key)
    ensures FromLE(k) < TWO_256
  {
    hide FromLE, Pow256;
    Pow256Of32();
  }

  /** A key is its first byte, thirty bytes in the middle and its last byte. */
  lemma {:induction false} KeyParts(k: Key)
    ensures var middle := FromLE(k[1..31]);
            && 256 * middle + 255 < TWO_248
            && FromLE(k) == k[0] + 256 * middle + TWO_248 * k[31]
  {
    Pow256Of32();
    Pow256Step(30);
    var rest := k[1..];
    assert rest == k[1..31] + [k[31]];
    FromLEConcat(k[1..31], [k[31]]);
    assert FromLE([k[31]]) == k[31];
    assert 256 * (Pow256(30) * k[31]) == TWO_248 * k[31];
  }

  lemma {:induction false} HighByte(low: nat, high: byte)
    requires low < TWO_248
    ensures high >= 128 <==> low + TWO_248 * high >= TWO_255
    ensures (low + TWO_248 * high) % TWO_255 == low + TWO_248 * (high % 128)
  {
    DivModUnique(low + TWO_248 * high, TWO_255, high / 128, low + TWO_248 * (high % 128));
  }

  /** The sign bit of an encoding is the top bit of its last byte. */
  lemma {:induction false} TopBit(k: Key)
    ensures k[31] / 128 == 1 <==> FromLE(k) >= TWO_255
    ensures FromLE(k[31 := And(k[31], 127)]) == FromLE(k) % TWO_255
  {
    hide FromLE, And;
    var t := k[31 := And(k[31], 127)];
    AndMasks(k[31]);
    KeyParts(k);
    KeyParts(t);
    assert t[1..31] == k[1..31];
    HighByte(k[0] + 256 * FromLE(k[1..31]), k[31]);
  }

  // ---------- Clamping ----------

  function Clamped(s: Key): (r: Key) {
    s[0 := And(s[0], 248)][31 := Or(And(s[31], 63), 64)]
  }

  method Clamp(s: array<byte>)
    requires s.Length == 32
    modifies s
    ensures s[..] == Clamped(old(s[..]))
  {
    s[0] := And(s[0], 248);
    s[31] := And(s[31], 63);
    s[31] := Or(s[31], 64);
  }

  lemma {:induction false} ClampedRange(first: byte, middle: nat, last: byte)
    requires first % 8 == 0 && 64 <= last < 128 && 256 * middle + 255 < TWO_248
    ensures var v := first + 256 * middle + TWO_248 * last;
            TWO_254 <= v < TWO_255 && v % 8 == 0
  {
  }

  lemma {:induction false} ClampedEnds(s: Key)
    ensures Clamped(s)[0] % 8 == 0 && 64 <= Clamped(s)[31] < 128
  {
    hide And, Or;
    AndMasks(s[0]);
    AndMasks(s[31]);
    OrBitSix(And(s[31], 63));
  }

  /** A clamped scalar lies between 2^254 and 2^255, is a multiple of eight and none of L. */
  lemma {:induction false} ClampedValue(s: Key)
    ensures var v := FromLE(Clamped(s));
            TWO_254 <= v < TWO_255 && v % 8 == 0 && v % L != 0
  {
    hide FromLE, And, Or, Clamped;
    var c := Clamped(s);
    KeyParts(c);
    ClampedEnds(s);
    ClampedRange(c[0], FromLE(c[1..31]), c[31]);
    ClampedIsNoMultiple(FromLE(c));
  }

  /** Clamping clears the three low bits and the two high ones, sets bit 254, and keeps all others. */
  lemma {:induction false} ClampedBits(s: Key)
    ensures FromLE(Clamped(s)) == TWO_254 + FromLE(s) % TWO_254 / 8 * 8
  {
    hide FromLE, And, Or;
    var c := Clamped(s);
    AndMasks(s[0]);
    AndMasks(s[31]);
    OrBitSix(And(s[31], 63));
    KeyParts(s);
    KeyParts(c);
    assert c[1..31] == s[1..31];
    var middle := FromLE(s[1..31]);
    KeptBits(s[0], middle, s[31]);
  }

  lemma {:induction false} KeptBits(first: byte, middle: nat, last: byte)
    requires 256 * middle + 255 < TWO_248
    ensures (first + 256 * middle + TWO_248 * last) % TWO_254 / 8 * 8
            == first - first % 8 + 256 * middle + TWO_248 * (last % 64)
  {
    var top: nat := last % 64;
    var low := first + 256 * middle + TWO_248 * top;
    DivModUnique(first + 256 * middle + TWO_248 * last, TWO_254, last / 64, low);
    Eighths(first, 32 * middle + TWO_248 / 8 * top);
  }

  lemma {:induction false} Eighths(first: byte, k: nat)
    ensures (first + 8 * k) / 8 * 8 == first - first % 8 + 8 * k
  {
  }

  lemma {:induction false} ClampIdempotent(s: Key)
    ensures Clamped(Clamped(s)) == Clamped(s)
  {
    hide And, Or;
    var c := Clamped(s);
    AndMasks(s[0]); AndMasks(s[31]); OrBitSix(And(s[31], 63));
    AndMasks(c[0]); AndMasks(c[31]); OrBitSix(And(c[31], 63));
  }

  // ---------- Scalars modulo L ----------

  function Scalar(n: int): (k: Key)
    ensures FromLE(k) == n % L
  {
    LE32(n % L);
    ToLE(n % L, 32)
  }

  lemma {:induction false} ScalarCong(n: int)
    ensures FromLE(Scalar(n)) < L && Cong(L, FromLE(Scalar(n)), n)
  {
    hide FromLE;
    CongMod(L, n);
  }

  function ScalarReduce(b: bytes): (k: Key) { Scalar(FromLE(b)) }
  function ScalarNegate(s: Key): (k: Key) { Scalar(0 - FromLE(s)) }
  function ScalarMul(a: Key, b: Key): (k: Key) { Scalar(FromLE(a) * FromLE(b)) }
  function ScalarAdd(a: Key, b: Key): (k: Key) { Scalar(FromLE(a) + FromLE(b)) }
  function ScalarSub(a: Key, b: Key): (k: Key) { Scalar(FromLE(a) - FromLE(b)) }

  /** Reduced products and sums are congruent to the products and sums of what they stand for. */
  lemma {:induction false} ScalarSum(h: Key, a: Key, r: Key, x: int)
    requires Cong(L, FromLE(a), x)
    ensures FromLE(ScalarAdd(ScalarMul(h, a), r)) < L
    ensures Cong(L, FromLE(ScalarAdd(ScalarMul(h, a), r)), FromLE(r) + FromLE(h) * x)
  {
    hide FromLE, Pow256, Cong, Scalar;
    var p := ScalarMul(h, a);
    CongRefl(L, FromLE(h)); CongRefl(L, FromLE(r));
    CongMul(L, FromLE(h), FromLE(h), FromLE(a), x);
    ScalarCong(FromLE(h) * FromLE(a));
    CongTrans(L, FromLE(p), FromLE(h) * FromLE(a), FromLE(h) * x);
    CongAdd(L, FromLE(r), FromLE(r), FromLE(p), FromLE(h) * x);
    ScalarCong(FromLE(p) + FromLE(r));
    CongTrans(L, FromLE(ScalarAdd(p, r)), FromLE(r) + FromLE(p), FromLE(r) + FromLE(h) * x);
  }

  // ---------- Points ----------

  /** crypto_scalarmult_ed25519_base: clamps. */
  function BaseMulClamped<Pt(!new)>(c: Curve<Pt>, k: Key): (e: Key) {
    c.Encode(c.Mul(FromLE(Clamped(k)), c.base))
  }

  /** crypto_scalarmult_ed25519_base_noclamp: only drops the top bit. */
  function BaseMul<Pt(!new)>(c: Curve<Pt>, k: Key): (e: Key) {
    c.Encode(c.Mul(FromLE(k) % TWO_255, c.base))
  }

  /** It reports an error for the neutral element and for a zero scalar. */
  predicate BaseMulOk<Pt(==, !new)>(c: Curve<Pt>, k: Key) {
    FromLE(k) != 0 && c.Mul(FromLE(k) % TWO_255, c.base) != c.zero
  }

  /** Points that the cofactor 8 annihilates. */
  predicate SmallOrder<Pt(==, !new)>(c: Curve<Pt>, p: Pt) {
    c.Mul(8, p) == c.zero
  }

  /** The bytes of such a point. */
  predicate SmallOrderKey<Pt(==, !new)>(c: Curve<Pt>, e: Key) {
    c.decode(e).Some? && SmallOrder(c, c.decode(e).value)
  }

  predicate Canonical(e: Key) {
    FromLE(e) % TWO_255 < P
  }

  lemma {:induction false} SmallOrderMultiple<Pt(!new)>(c: Curve<Pt>, n: int)
    requires c.LawfulGroup() && c.LawfulOrder()
    ensures SmallOrder(c, c.Multiple(n)) <==> n % L == 0
  {
    hide Curve.LawfulGroup, Curve.LawfulOrder, Curve.Mul, Curve.Multiple;
    c.MultipleMul(8, n);
    c.MultipleZero(8 * n);
    EightTimes(n);
  }

  lemma {:induction false} EncodingIsCanonical<Pt(!new)>(c: Curve<Pt>, p: Pt)
    requires c.LawfulEncoding()
    ensures Canonical(c.Encode(p))
  {
    hide FromLE, Curve.Encode;
    c.EncodeValue(p);
  }

  /** Multiplication without clamping, for scalars whose top bit is clear. */
  lemma {:induction false} BaseMulEncodes<Pt(!new)>(c: Curve<Pt>, r: Key)
    requires c.Lawful() && FromLE(r) < TWO_255
    ensures BaseMul(c, r) == c.Encode(c.Multiple(FromLE(r)))
  {
    hide FromLE, Curve.Mul, Curve.Encode, Curve.Multiple, Curve.LawfulGroup, Curve.LawfulOrder;
    hide Curve.LawfulEncoding, Curve.LawfulField;
    c.MultipleOfNat(FromLE(r));
    SmallResidueOf255(FromLE(r));
  }

  lemma {:induction false} SmallResidueOf255(n: nat)
    requires n < TWO_255
    ensures n % TWO_255 == n
  {
  }
}
