/** The maps between the u coordinate of Curve25519 and the y coordinate of Ed25519,
    RFC 7748 section 4.1. */
module CurveMaps {
  import opened Bytes
  import opened Modular
  import opened Curves

  /** y = (u - 1) / (u + 1), with 1/0 = 0. */
  function EdwardsY<Pt(!new)>(c: Curve<Pt>, u: nat): (y: nat)
    ensures y < P
  {
    ((u - 1) * c.invert((u + 1) % P)) % P
  }

  /** u = (1 + y) / (1 - y), with 1/0 = 0. */
  function MontgomeryU<Pt(!new)>(c: Curve<Pt>, y: nat): (u: nat)
    ensures u < P
  {
    ((1 + y) * c.invert((1 - y) % P)) % P
  }

  method MontxToEdy<Pt(!new)>(c: Curve<Pt>, u: nat) returns (y: nat)
    requires u < P
    ensures y == EdwardsY(c, u)
  {
    var um1 := (u - 1) % P;
    var up1 := (u + 1) % P;
    up1 := c.invert(up1);
    y := (um1 * up1) % P;
    MulModRight(P, u - 1, up1);
  }

  // ---------- What the maps compute ----------

  lemma {:induction false} SmallResidue(a: nat, b: int)
    requires a < P && Cong(P, a, b) && 0 <= b < P
    ensures a == b
  {
    CongSameMod(P, a, b);
  }

  lemma {:induction false} InvertLaw<Pt(!new)>(c: Curve<Pt>, x: int)
    requires c.LawfulField() && PrimeModulus(P) && x % P != 0
    ensures Cong(P, x * c.invert(x % P), 1)
  {
    var r := x % P;
    assert Invertible(P, r);
    assert (r * c.invert(r)) % P == 1;
    hide Curve.LawfulField, PrimeModulus;
    MulModRight(P, x, c.invert(r));
    CongSameMod(P, x * c.invert(r), 1);
  }

  /** `q` is the quotient of `a` by `b`. */
  lemma {:induction false} QuotientLaw<Pt(!new)>(c: Curve<Pt>, a: int, b: int, q: int)
    requires c.LawfulField() && PrimeModulus(P) && b % P != 0
    requires q == (a * c.invert(b % P)) % P
    ensures Cong(P, q * b, a)
  {
    hide Curve.LawfulField, PrimeModulus;
    InvertLaw(c, b);
    var i: int := c.invert(b % P);
    CongMod(P, a * i); CongRefl(P, b); CongRefl(P, a);
    CongMul(P, q, a * i, b, b);
    CongMul(P, a, a, b * i, 1);
    assert (a * i) * b == a * (b * i) && a * 1 == a;
    CongTrans(P, q * b, a * (b * i), a);
  }

  lemma {:induction false} ZeroSum(u: nat)
    requires u < P
    ensures (u + 1) % P == 0 <==> u == P - 1
    ensures (1 - u) % P == 0 <==> u == 1
  {
    if 1 < u {
      assert (1 - u) % P == P + 1 - u;
    }
  }

  lemma {:induction false} EdwardsYLaw<Pt(!new)>(c: Curve<Pt>, u: nat)
    requires c.LawfulField() && PrimeModulus(P) && u < P && u != P - 1
    ensures Cong(P, EdwardsY(c, u) * (u + 1), u - 1)
  {
    hide Curve.LawfulField, PrimeModulus;
    ZeroSum(u);
    QuotientLaw(c, u - 1, u + 1, EdwardsY(c, u));
  }

  lemma {:induction false} MontgomeryULaw<Pt(!new)>(c: Curve<Pt>, y: nat)
    requires c.LawfulField() && PrimeModulus(P) && y < P && y != 1
    ensures Cong(P, MontgomeryU(c, y) * (1 - y), 1 + y)
  {
    hide Curve.LawfulField, PrimeModulus;
    ZeroSum(y);
    QuotientLaw(c, 1 + y, 1 - y, MontgomeryU(c, y));
  }

  /** Both maps describe the same relation between u and y. */
  lemma {:induction false} SameRelation(u: int, y: int)
    ensures Cong(P, u * (1 - y), 1 + y) <==> Cong(P, y * (u + 1), u - 1)
  {
    assert u * (1 - y) - (1 + y) == (u - 1) - y * (u + 1);
    if Cong(P, y * (u + 1), u - 1) {
      CongSym(P, y * (u + 1), u - 1);
    }
    if Cong(P, u * (1 - y), 1 + y) {
      CongSym(P, u - 1, y * (u + 1));
    }
  }

  /** Away from y = 1 the map to Montgomery form is undone, and never yields u = -1. */
  lemma {:induction false} EdwardsRoundTrip<Pt(!new)>(c: Curve<Pt>, y: nat)
    requires c.LawfulField() && PrimeModulus(P) && y < P && y != 1
    ensures MontgomeryU(c, y) != P - 1
    ensures EdwardsY(c, MontgomeryU(c, y)) == y
  {
    hide Curve.LawfulField, PrimeModulus, MontgomeryU, EdwardsY;
    var u := MontgomeryU(c, y);
    MontgomeryULaw(c, y);
    SameRelation(u, y);
    if u == P - 1 {
      NotBothSigns(y);
      assert false;
    }
    EdwardsYLaw(c, u);
    var y' := EdwardsY(c, u);
    CongSym(P, y * (u + 1), u - 1);
    CongTrans(P, y' * (u + 1), u - 1, y * (u + 1));
    ZeroSum(u);
    InvertLaw(c, u + 1);
    Cancel(P, y', y, u + 1, c.invert((u + 1) % P));
    SmallResidue(y', y);
  }

  /** Away from u = -1 the map to Edwards form is undone, and never yields y = 1. */
  lemma {:induction false} MontgomeryRoundTrip<Pt(!new)>(c: Curve<Pt>, u: nat)
    requires c.LawfulField() && PrimeModulus(P) && u < P && u != P - 1
    ensures EdwardsY(c, u) != 1
    ensures MontgomeryU(c, EdwardsY(c, u)) == u
  {
    hide Curve.LawfulField, PrimeModulus, MontgomeryU, EdwardsY;
    var y := EdwardsY(c, u);
    EdwardsYLaw(c, u);
    SameRelation(u, y);
    if y == 1 {
      var k := FactorOf(P, 1 * (u + 1), u - 1);
      assert false;
    }
    MontgomeryULaw(c, y);
    var u' := MontgomeryU(c, y);
    CongSym(P, u * (1 - y), 1 + y);
    CongTrans(P, u' * (1 - y), 1 + y, u * (1 - y));
    ZeroSum(y);
    InvertLaw(c, 1 - y);
    Cancel(P, u', u, 1 - y, c.invert((1 - y) % P));
    SmallResidue(u', u);
  }

  /** u = -1 would make 2 vanish. */
  lemma {:induction false} NotBothSigns(y: int)
    ensures !Cong(P, y * (P - 1 + 1), P - 1 - 1)
  {
    DivModUnique(y * (P - 1 + 1) - (P - 1 - 1), P, y - 1, 2);
    CongSameMod(P, y * (P - 1 + 1) - (P - 1 - 1), 0);
  }

  /** The two excluded values are where 1/0 = 0 shows. */
  lemma {:induction false} ExcludedValues<Pt(!new)>(c: Curve<Pt>)
    requires c.LawfulField()
    ensures EdwardsY(c, P - 1) == 0 && MontgomeryU(c, 1) == 0
  {
    assert (P - 1 + 1) % P == 0 && (1 - 1) % P == 0;
    assert c.invert(0) == 0;
  }
}
