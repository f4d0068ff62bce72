/** The equations of Curve25519 and Ed25519 over the integers modulo a prime `f`, P among them, and
    why the map between the curves leads from one to the other. */
module CurveEquations {
  import opened Modular

  const A24: int := 486662

  /** v^2 = u^3 + 486662 u^2 + u, for the square vv of v. */
  ghost predicate OnMontgomery(f: nat, u: int, vv: int) {
    Cong(f, vv, u * Cubic(u))
  }

  function Cubic(u: int): int { u * (u + A24) + 1 }

  /** y^2 - x^2 = 1 + d x^2 y^2 with d = -121665/121666, for the squares xx and yy, written
      without the quotient. */
  ghost predicate OnEdwards(f: nat, xx: int, yy: int) {
    Cong(f, EdwardsTerm(xx, yy), 0)
  }

  function EdwardsTerm(xx: int, yy: int): int {
    121666 * (yy - xx - 1) + 121665 * (xx * yy)
  }

  /** A congruence replaces one factor of a linear expression p a + b. */
  lemma {:induction false} Replace(f: nat, p: int, q: int, a: int, b: int)
    requires Cong(f, p, q)
    ensures Cong(f, p * a + b, q * a + b)
  {
    hide Cong;
    CongRefl(f, a); CongRefl(f, b);
    CongMul(f, p, q, a, a);
    CongAdd(f, p * a, q * a, b, b);
  }

  /** The Edwards equation multiplied by vv and by w = (u + 1)^2. */
  lemma {:induction false} Cleared(xx: int, yy: int, vv: int, w: int)
    ensures EdwardsTerm(xx, yy) * (vv * w)
            == (yy * w) * (121666 * vv + 121665 * (xx * vv)) - 121666 * ((xx * vv) * w + vv * w)
  {
  }

  /** What remains once yy w, xx vv and vv are replaced by m, s and q. */
  lemma {:induction false} Eliminate(f: nat, e: int, yw: int, xv: int, v: int, w: int, m: int, s: int, q: int)
    requires e == yw * (121666 * v + 121665 * xv) - 121666 * (xv * w + v * w)
    requires q * (121666 * (m - w)) + s * (121665 * m - 121666 * w) == 0
    requires Cong(f, yw, m) && Cong(f, xv, s) && Cong(f, v, q)
    ensures Cong(f, e, 0)
  {
    hide Cong;
    var e1 := m * (121666 * v + 121665 * xv) - 121666 * (xv * w + v * w);
    Replace(f, yw, m, 121666 * v + 121665 * xv, 0 - 121666 * (xv * w + v * w));
    Regroup(m, v, xv, w);
    var e2 := s * (121665 * m - 121666 * w) + 121666 * (m - w) * v;
    Replace(f, xv, s, 121665 * m - 121666 * w, 121666 * (m - w) * v);
    Commute(v, 121666 * (m - w), s * (121665 * m - 121666 * w));
    Replace(f, v, q, 121666 * (m - w), s * (121665 * m - 121666 * w));
    CongTrans(f, e, e1, e2);
    CongTrans(f, e, e2, 0);
  }

  lemma {:induction false} Regroup(m: int, v: int, xv: int, w: int)
    ensures m * (121666 * v + 121665 * xv) - 121666 * (xv * w + v * w)
            == xv * (121665 * m - 121666 * w) + 121666 * (m - w) * v
  {
  }

  lemma {:induction false} Commute(v: int, a: int, b: int)
    ensures b + a * v == v * a + b
  {
  }

  /** 486664 (u + 1)^2 121666 - 486664 (u - 1)^2 121665 is four times 121666 the quadratic. */
  lemma {:induction false} Balance(u: int)
    ensures 486664 * (121666 * ((u + 1) * (u + 1)) - 121665 * ((u - 1) * (u - 1))) == 4 * 121666 * Cubic(u)
  {
  }

  lemma {:induction false} Remainder(u: int, w: int, m: int)
    requires w == (u + 1) * (u + 1) && m == (u - 1) * (u - 1)
    ensures (u * Cubic(u)) * (121666 * (m - w)) + (-486664 * (u * u)) * (121665 * m - 121666 * w) == 0
  {
    Balance(u);
    var n := Cubic(u);
    hide Cubic;
    assert m - w == -4 * u;
    assert (u * n) * (121666 * (-4 * u)) == (u * u) * (121666 * (-4 * n));
    var f := 121666 * (-4 * n) - 486664 * (121665 * m - 121666 * w);
    assert f == 0;
    assert (u * u) * f == 0;
  }

  lemma {:induction false} SquareOfY(f: nat, y: int, u: int)
    requires Cong(f, y * (u + 1), u - 1)
    ensures Cong(f, (y * y) * ((u + 1) * (u + 1)), (u - 1) * (u - 1))
  {
    hide Cong;
    CongMul(f, y * (u + 1), u - 1, y * (u + 1), u - 1);
    assert (y * (u + 1)) * (y * (u + 1)) == (y * y) * ((u + 1) * (u + 1));
  }

  /** A factor that does not vanish can be dropped from an equation with zero. */
  lemma {:induction false} DropFactor(f: nat, e: int, v: int, w: int)
    requires f > 1 && PrimeModulus(f) && v % f != 0 && w % f != 0
    requires Cong(f, e * (v * w), 0)
    ensures Cong(f, e, 0)
  {
    hide PrimeModulus, Cong;
    CongSameMod(f, e * (v * w), 0);
    CongSameMod(f, e, 0);
    NoZeroDivisors(f, v, w);
    NoZeroDivisors(f, e, v * w);
  }

  /** The image of a Montgomery point lies on the Edwards curve: y is the quotient of u - 1 and
      u + 1, and x = sqrt(-486664) u / v, of which only the squares xx and vv of x and v matter. */
  lemma {:induction false} ImageOnEdwards(f: nat, u: int, vv: int, xx: int, y: int)
    requires f > 1 && PrimeModulus(f) && (u + 1) % f != 0 && vv % f != 0
    requires OnMontgomery(f, u, vv) && Cong(f, xx * vv, -486664 * (u * u))
    requires Cong(f, y * (u + 1), u - 1)
    ensures OnEdwards(f, xx, y * y)
  {
    hide PrimeModulus, Cong, EdwardsTerm, Cubic;
    SquareOfY(f, y, u);
    var yy, w, m := y * y, (u + 1) * (u + 1), (u - 1) * (u - 1);
    Cleared(xx, yy, vv, w);
    Remainder(u, w, m);
    Eliminate(f, EdwardsTerm(xx, yy) * (vv * w), yy * w, xx * vv, vv, w, m, -486664 * (u * u), u * Cubic(u));
    NoZeroDivisors(f, u + 1, u + 1);
    DropFactor(f, EdwardsTerm(xx, yy), vv, w);
  }
}
