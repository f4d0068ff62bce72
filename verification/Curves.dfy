/** The Ed25519 curve as libsodium offers it: an abstract abelian group whose base point has
    order L, with the 32-byte encoding of RFC 8032 section 5.1.2. `Lawful` lists what the proofs
    use; `ToyCurveIsLawful` shows that it is satisfiable for the real L and the real field. */
module Curves {
  import opened Wrappers
  import opened Bytes
  import opened Modular

  /** `y` and `odd` are the two parts of an encoding, `invert` is the field inversion. */
  datatype Curve<!Pt(!new)> = Curve(
    zero: Pt,
    base: Pt,
    add: (Pt, Pt) -> Pt,
    neg: Pt -> Pt,
    y: Pt -> nat,
    odd: Pt -> bool,
    decode: Key -> Option<Pt>,
    invert: nat -> nat
  ) {

    function Mul(n: nat, p: Pt): Pt {
      if n == 0 then zero else add(p, Mul(n - 1, p))
    }

    function Encode(p: Pt): (k: Key) {
      ToLE(y(p) + if odd(p) then TWO_255 else 0, 32)
    }

    ghost predicate LawfulGroup() {
      && (forall p, q, r :: add(add(p, q), r) == add(p, add(q, r)))
      && (forall p, q :: add(p, q) == add(q, p))
      && (forall p :: add(p, zero) == p)
      && (forall p :: add(p, neg(p)) == zero)
    }

    ghost predicate LawfulOrder() {
      && Mul(L, base) == zero
      && forall n: nat :: 0 < n < L ==> Mul(n, base) != zero
    }

    /** Negation changes x only, so y is the same, and y is 1 only at the neutral element. */
    ghost predicate LawfulEncoding() {
      && (forall p :: y(p) < P)
      && (forall p :: y(neg(p)) == y(p))
      && (forall p :: y(p) == 1 ==> p == zero)
      && (forall p :: decode(Encode(p)) == Some(p))
    }

    ghost predicate LawfulField() {
      && invert(0) == 0
      && forall x: nat :: invert(x) < P && (Invertible(P, x) ==> (x * invert(x)) % P == 1)
    }

    ghost predicate Lawful() {
      LawfulGroup() && LawfulOrder() && LawfulEncoding() && LawfulField()
    }

    // ---------- The laws one at a time ----------

    lemma {:induction false} Assoc(p: Pt, q: Pt, r: Pt)
      requires LawfulGroup()
      ensures add(add(p, q), r) == add(p, add(q, r))
    {
    }

    lemma {:induction false} Comm(p: Pt, q: Pt)
      requires LawfulGroup()
      ensures add(p, q) == add(q, p)
    {
    }

    lemma {:induction false} Neutral(p: Pt)
      requires LawfulGroup()
      ensures add(p, zero) == p && add(zero, p) == p
    {
      assert add(p, zero) == add(zero, p);
    }

    lemma {:induction false} Opposite(p: Pt)
      requires LawfulGroup()
      ensures add(p, neg(p)) == zero
    {
    }

    // ---------- Multiples ----------

    lemma {:induction false} MulAdd(m: nat, n: nat, p: Pt)
      requires LawfulGroup()
      ensures Mul(m + n, p) == add(Mul(m, p), Mul(n, p))
      decreases m
    {
      hide LawfulGroup;
      if m == 0 {
        Neutral(Mul(n, p));
      } else {
        MulAdd(m - 1, n, p);
        Assoc(p, Mul(m - 1, p), Mul(n, p));
      }
    }

    lemma {:induction false} MulZero(n: nat)
      requires LawfulGroup()
      ensures Mul(n, zero) == zero
    {
      hide LawfulGroup;
      if n > 0 {
        MulZero(n - 1);
        Neutral(zero);
      }
    }

    lemma {:induction false} MulMul(m: nat, n: nat, p: Pt)
      requires LawfulGroup()
      ensures Mul(m * n, p) == Mul(m, Mul(n, p))
      decreases m
    {
      hide LawfulGroup;
      if m == 0 {
        assert m * n == 0;
      } else {
        MulMul(m - 1, n, p);
        assert m * n == n + (m - 1) * n;
        MulAdd(n, (m - 1) * n, p);
      }
    }

    lemma {:induction false} MulByL(q: nat)
      requires LawfulGroup() && LawfulOrder()
      ensures Mul(q * L, base) == zero
    {
      hide LawfulGroup;
      MulMul(q, L, base);
      MulZero(q);
    }

    /** Multiples of the base point only depend on the scalar modulo L. */
    lemma {:induction false} MulBaseMod(n: nat)
      requires LawfulGroup() && LawfulOrder()
      ensures Mul(n, base) == Mul(n % L, base)
    {
      hide LawfulGroup, LawfulOrder;
      var q, r := n / L, n % L;
      assert n == q * L + r;
      MulByL(q);
      MulAdd(q * L, r, base);
      Neutral(Mul(r, base));
    }

    lemma {:induction false} MulBaseZero(n: nat)
      requires LawfulGroup() && LawfulOrder()
      ensures Mul(n, base) == zero <==> n % L == 0
    {
      hide LawfulGroup;
      MulBaseMod(n);
      assert Mul(0, base) == zero;
    }

    lemma {:induction false} CancelRight(p: Pt, q: Pt, r: Pt)
      requires LawfulGroup() && add(p, r) == add(q, r)
      ensures p == q
    {
      hide LawfulGroup;
      Assoc(p, r, neg(r));
      Assoc(q, r, neg(r));
      Opposite(r);
      Neutral(p);
      Neutral(q);
    }

    lemma {:induction false} NegUnique(p: Pt, q: Pt)
      requires LawfulGroup() && add(p, q) == zero
      ensures q == neg(p)
    {
      hide LawfulGroup;
      Neutral(q);
      Opposite(p);
      Assoc(q, p, neg(p));
      Comm(p, q);
      Neutral(neg(p));
    }

    /** The negation of a multiple of the base point is a multiple of it. */
    lemma {:induction false} NegMulBase(n: nat, m: nat)
      requires LawfulGroup() && LawfulOrder() && (n + m) % L == 0
      ensures neg(Mul(n, base)) == Mul(m, base)
    {
      hide LawfulGroup, LawfulOrder;
      MulAdd(n, m, base);
      MulBaseZero(n + m);
      NegUnique(Mul(n, base), Mul(m, base));
    }

    /** Equal multiples of the base point have congruent scalars. */
    lemma {:induction false} MulBaseInjective(m: nat, n: nat)
      requires LawfulGroup() && LawfulOrder() && Mul(m, base) == Mul(n, base)
      ensures m % L == n % L
    {
      hide LawfulGroup, LawfulOrder, Mul;
      var k := L - n % L;
      SumWithComplement(n, m);
      NegMulBase(n, k);
      MulAdd(m, k, base);
      Opposite(Mul(n, base));
      MulBaseZero(m + k);
    }

    // ---------- Multiples of the base point by any integer ----------

    function Multiple(n: int): Pt {
      Mul(n % L, base)
    }

    lemma {:induction false} MultipleOfNat(n: nat)
      requires LawfulGroup() && LawfulOrder()
      ensures Mul(n, base) == Multiple(n)
    {
      MulBaseMod(n);
    }

    lemma {:induction false} MultipleEqual(m: int, n: int)
      requires LawfulGroup() && LawfulOrder()
      ensures Multiple(m) == Multiple(n) <==> Cong(L, m, n)
    {
      hide LawfulGroup, LawfulOrder, Mul;
      CongSameMod(L, m, n);
      if Multiple(m) == Multiple(n) {
        MulBaseInjective(m % L, n % L);
      }
    }

    lemma {:induction false} MultipleZero(n: int)
      requires LawfulGroup() && LawfulOrder()
      ensures Multiple(n) == zero <==> n % L == 0
    {
      hide LawfulGroup, LawfulOrder, Mul;
      MulBaseZero(n % L);
    }

    lemma {:induction false} MultipleAdd(m: int, n: int)
      requires LawfulGroup() && LawfulOrder()
      ensures add(Multiple(m), Multiple(n)) == Multiple(m + n)
    {
      hide LawfulGroup, LawfulOrder, Mul;
      MulAdd(m % L, n % L, base);
      MultipleOfNat(m % L + n % L);
      CongMod(L, m);
      CongMod(L, n);
      CongAdd(L, m % L, m, n % L, n);
      MultipleEqual(m % L + n % L, m + n);
    }

    lemma {:induction false} MultipleNeg(n: int)
      requires LawfulGroup() && LawfulOrder()
      ensures neg(Multiple(n)) == Multiple(0 - n)
    {
      hide LawfulGroup, LawfulOrder, Mul;
      MultipleAdd(n, 0 - n);
      MultipleZero(0);
      NegUnique(Multiple(n), Multiple(0 - n));
    }

    lemma {:induction false} MultipleMul(m: nat, n: int)
      requires LawfulGroup() && LawfulOrder()
      ensures Mul(m, Multiple(n)) == Multiple(m * n)
    {
      hide LawfulGroup, LawfulOrder, Mul;
      MulMul(m, n % L, base);
      MultipleOfNat(m * (n % L));
      CongRefl(L, m);
      CongMod(L, n);
      CongMul(L, m, m, n % L, n);
      MultipleEqual(m * (n % L), m * n);
    }

    // ---------- Encodings ----------

    lemma {:induction false} EncodeInjective(p: Pt, q: Pt)
      requires LawfulEncoding() && Encode(p) == Encode(q)
      ensures p == q
    {
      assert decode(Encode(p)) == Some(p) && decode(Encode(q)) == Some(q);
    }

    /** A multiple of the base point that is its own negation is the neutral element. */
    lemma {:induction false} NoSelfInverse(n: nat)
      requires LawfulGroup() && LawfulOrder() && neg(Mul(n, base)) == Mul(n, base)
      ensures n % L == 0
    {
      hide LawfulGroup, LawfulOrder, Mul;
      Opposite(Mul(n, base));
      MulAdd(n, n, base);
      MulBaseZero(n + n);
      LIsOdd(n);
    }

    /** On the subgroup, negation flips the sign bit of everything but the neutral element. */
    lemma {:induction false} NegFlipsSign(n: nat)
      requires LawfulGroup() && LawfulOrder() && LawfulEncoding() && n % L != 0
      ensures odd(neg(Mul(n, base))) != odd(Mul(n, base))
    {
      hide LawfulGroup, LawfulOrder, Mul;
      var p := Mul(n, base);
      assert y(neg(p)) == y(p);
      if odd(neg(p)) == odd(p) {
        EncodeInjective(neg(p), p);
        NoSelfInverse(n);
      }
    }

    /** The value of an encoding: y and the sign bit. */
    lemma {:induction false} EncodeValue(p: Pt)
      requires LawfulEncoding()
      ensures FromLE(Encode(p)) == y(p) + if odd(p) then TWO_255 else 0
      ensures FromLE(Encode(p)) % TWO_255 == y(p)
    {
      hide ToLE, FromLE, Pow256;
      assert y(p) < P;
      LE32(y(p) + if odd(p) then TWO_255 else 0);
    }
  }

  lemma {:induction false} LE32(v: nat)
    requires v < TWO_256
    ensures FromLE(ToLE(v, 32)) == v
  {
    hide ToLE, FromLE;
    Pow256Of32();
    FromLEToLE(v, 32);
  }

  lemma {:induction false} SumWithComplement(n: nat, m: nat)
    ensures (n + (L - n % L)) % L == 0
    ensures (m + (L - n % L)) % L == 0 <==> m % L == n % L
  {
  }

  lemma {:induction false} Pow256Add(a: nat, b: nat)
    ensures Pow256(a + b) == Pow256(a) * Pow256(b)
  {
    if a > 0 {
      Pow256Add(a - 1, b);
      MulAssoc(256, Pow256(a - 1), Pow256(b));
    }
  }

  lemma {:induction false} Pow256Of32()
    ensures Pow256(32) == TWO_256
    ensures Pow256(31) == TWO_248
  {
    hide Pow256;
    Pow256Of4();
    Pow256Add(4, 4);
    Pow256Add(8, 8);
    Pow256Add(16, 16);
    Pow256Step(31);
  }

  lemma {:induction false} Pow256Step(n: nat)
    ensures Pow256(n + 1) == 256 * Pow256(n)
  {
  }

  // ---------- A witness ----------

  /** The integers modulo L; the encoding lists them as 0, 1, L-1, 2, L-2 and so on. */
  type Residue = n: nat | n < L

  function AddResidues(a: Residue, b: Residue): Residue { if a + b < L then a + b else a + b - L }
  function NegResidue(a: Residue): Residue { if a == 0 then 0 else L - a }
  function Half(a: Residue): nat { if 2 * a < L then a else L - a }
  function ToyY(a: Residue): nat { Half(a) + 1 }
  function ToyOdd(a: Residue): bool { 2 * a >= L }

  function ToyDecode(k: Key): Option<Residue> {
    var v := FromLE(k);
    var h := v % TWO_255;
    if h == 0 || 2 * (h - 1) >= L || (h == 1 && v >= TWO_255) then None
    else if v < TWO_255 then Some(h - 1)
    else Some(L - (h - 1))
  }

  ghost function Inverse(x: nat): (z: nat) {
    if Invertible(P, x) then (var z: nat :| z < P && (x * z) % P == 1 % P; z) else 0
  }

  ghost function ToyCurve(): Curve<Residue> {
    Curve(0, 1, AddResidues, NegResidue, ToyY, ToyOdd, ToyDecode, x => Inverse(x))
  }

  lemma {:induction false} ToyMul(n: nat)
    ensures ToyCurve().Mul(n, 1) == n % L
  {
    if n > 0 {
      ToyMul(n - 1);
      NextResidue(n);
    }
  }

  lemma {:induction false} NextResidue(n: nat)
    requires n > 0
    ensures n % L == AddResidues(1, (n - 1) % L)
  {
    var q, r := (n - 1) / L, (n - 1) % L;
    if r + 1 < L {
      DivModUnique(n, L, q, r + 1);
    } else {
      DivModUnique(n, L, q + 1, 0);
    }
  }

  lemma {:induction false} ToyGroup()
    ensures ToyCurve().LawfulGroup()
  {
    forall p: Residue, q: Residue, r: Residue
      ensures AddResidues(AddResidues(p, q), r) == AddResidues(p, AddResidues(q, r))
    {
    }
  }

  lemma {:induction false} ToyOrder()
    ensures ToyCurve().LawfulOrder()
  {
    hide Curve.Mul;
    ToyMul(L);
    forall n: nat | 0 < n < L
      ensures ToyCurve().Mul(n, 1) != 0
    {
      ToyMul(n);
    }
  }

  lemma {:induction false} ToyDecodeEncode(p: Residue)
    ensures ToyDecode(ToLE(ToyY(p) + if ToyOdd(p) then TWO_255 else 0, 32)) == Some(p)
  {
    hide ToLE, FromLE, Pow256;
    var v := ToyY(p) + if ToyOdd(p) then TWO_255 else 0;
    LE32(v);
    DivModUnique(v, TWO_255, if ToyOdd(p) then 1 else 0, ToyY(p));
  }

  lemma {:induction false} ToyEncoding()
    ensures ToyCurve().LawfulEncoding()
  {
    hide ToLE, FromLE, Pow256, ToyDecode, ToyY;
    forall p: Residue
      ensures ToyY(p) < P && ToyY(NegResidue(p)) == ToyY(p) && (ToyY(p) == 1 ==> p == 0)
      ensures ToyCurve().decode(ToyCurve().Encode(p)) == Some(p)
    {
      ToyYLaws(p);
      ToyDecodeEncode(p);
    }
  }

  lemma {:induction false} ToyYLaws(p: Residue)
    ensures ToyY(p) < P && ToyY(NegResidue(p)) == ToyY(p) && (ToyY(p) == 1 ==> p == 0)
  {
  }

  lemma {:induction false} ToyCurveIsLawful()
    ensures ToyCurve().Lawful()
  {
    hide Curve.LawfulGroup, Curve.LawfulOrder, Curve.LawfulEncoding;
    ToyGroup();
    ToyOrder();
    ToyEncoding();
  }
}
