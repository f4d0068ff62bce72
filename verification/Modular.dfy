/** Congruences, and the two moduli of Curve25519 and Ed25519. */
module Modular {
  import opened Bytes

  /** The order of the prime-order subgroup, 2^252 + 27742317777372353535851937790883648493. */
  const L: nat := 0x10000000_00000000_00000000_00000000_14def9de_a2f79cd6_5812631a_5cf5d3ed

  /** The field prime, 2^255 - 19. */
  const P: nat := 0x7fffffff_ffffffff_ffffffff_ffffffff_ffffffff_ffffffff_ffffffff_ffffffed

  const TWO_248: nat := 0x1000000_00000000_00000000_00000000_00000000_00000000_00000000_00000000
  const TWO_254: nat := 64 * TWO_248
  const TWO_255: nat := 128 * TWO_248
  const TWO_256: nat := 256 * TWO_248

  // ---------- Congruence ----------

  /** `d` is `k` times `m`: taking `m` away `k` times leaves nothing. The definition mentions no
      product, which keeps congruences between polynomials cheap to reason about. */
  ghost predicate IsTimes(m: nat, d: int, k: int)
    decreases if k < 0 then -k else k
  {
    if k == 0 then d == 0
    else if k > 0 then IsTimes(m, d - m, k - 1)
    else IsTimes(m, d + m, k + 1)
  }

  lemma {:induction false} IsTimesProduct(m: nat, d: int, k: int)
    ensures IsTimes(m, d, k) <==> d == k * m
    decreases if k < 0 then -k else k
  {
    if k > 0 {
      IsTimesProduct(m, d - m, k - 1);
      assert k * m == (k - 1) * m + m;
    } else if k < 0 {
      IsTimesProduct(m, d + m, k + 1);
      assert k * m == (k + 1) * m - m;
    }
  }

  ghost predicate Divides(m: nat, d: int) {
    exists k :: IsTimes(m, d, k)
  }

  ghost predicate Cong(m: nat, a: int, b: int) {
    Divides(m, a - b)
  }

  lemma {:induction false} CongFactor(m: nat, a: int, b: int, k: int)
    requires a - b == k * m
    ensures Cong(m, a, b)
  {
    IsTimesProduct(m, a - b, k);
  }

  lemma {:induction false} FactorOf(m: nat, a: int, b: int) returns (k: int)
    requires Cong(m, a, b)
    ensures a - b == k * m
  {
    var d := a - b;
    k :| IsTimes(m, d, k);
    IsTimesProduct(m, a - b, k);
  }

  lemma {:induction false} CongSym(m: nat, a: int, b: int)
    requires Cong(m, a, b)
    ensures Cong(m, b, a)
  {
    var k := FactorOf(m, a, b);
    assert b - a == (-k) * m;
    CongFactor(m, b, a, -k);
  }

  lemma {:induction false} CongTrans(m: nat, a: int, b: int, c: int)
    requires Cong(m, a, b) && Cong(m, b, c)
    ensures Cong(m, a, c)
  {
    var k := FactorOf(m, a, b);
    var j := FactorOf(m, b, c);
    assert a - c == (k + j) * m;
    CongFactor(m, a, c, k + j);
  }

  lemma {:induction false} CongAdd(m: nat, a: int, b: int, c: int, d: int)
    requires Cong(m, a, b) && Cong(m, c, d)
    ensures Cong(m, a + c, b + d)
    ensures Cong(m, a - c, b - d)
  {
    var k := FactorOf(m, a, b);
    var j := FactorOf(m, c, d);
    assert (a + c) - (b + d) == (k + j) * m;
    CongFactor(m, a + c, b + d, k + j);
    assert (a - c) - (b - d) == (k - j) * m;
    CongFactor(m, a - c, b - d, k - j);
  }

  lemma {:induction false} CongMul(m: nat, a: int, b: int, c: int, d: int)
    requires Cong(m, a, b) && Cong(m, c, d)
    ensures Cong(m, a * c, b * d)
  {
    var k := FactorOf(m, a, b);
    var j := FactorOf(m, c, d);
    assert a == b + k * m && c == d + j * m;
    var f := a * j + d * k;
    assert a * c - b * d == a * (c - d) + d * (a - b);
    assert a * (c - d) == a * (j * m) && d * (a - b) == d * (k * m);
    MulAssoc(a, j, m);
    MulAssoc(d, k, m);
    assert f * m == (a * j) * m + (d * k) * m;
    CongFactor(m, a * c, b * d, f);
  }

  lemma {:induction false} CongMod(m: nat, a: int)
    requires m > 0
    ensures Cong(m, a % m, a) && Cong(m, a, a % m)
  {
    CongFactor(m, a % m, a, -(a / m));
    CongFactor(m, a, a % m, a / m);
  }

  lemma {:induction false} CongRefl(m: nat, a: int)
    ensures Cong(m, a, a)
  {
    CongFactor(m, a, a, 0);
  }

  lemma {:induction false} CongSameMod(m: nat, a: int, b: int)
    requires m > 0
    ensures Cong(m, a, b) <==> a % m == b % m
  {
    var q, r := a / m, a % m;
    var q', r' := b / m, b % m;
    if r == r' {
      assert a - b == (q - q') * m;
      CongFactor(m, a, b, q - q');
    }
    if Cong(m, a, b) {
      var k := FactorOf(m, a, b);
      assert a == (k + q') * m + r';
      DivModUnique(a, m, k + q', r');
    }
  }

  lemma {:induction false} MulModRight(m: nat, a: int, b: int)
    requires m > 0
    ensures (a * (b % m)) % m == (a * b) % m
    ensures ((a % m) * b) % m == (a * b) % m
  {
    CongRefl(m, a); CongRefl(m, b); CongMod(m, a); CongMod(m, b);
    CongMul(m, a, a, b % m, b);
    CongMul(m, a % m, a, b, b);
    CongSameMod(m, a * (b % m), a * b);
    CongSameMod(m, (a % m) * b, a * b);
  }

  // ---------- Multiples of L ----------

  lemma {:induction false} EightResidue(r: nat)
    requires 0 < r < L
    ensures (8 * r) % L != 0
  {
    var q := 8 * r / L;
    assert 0 <= q < 8;
    assert 8 * r == q * L + (8 * r) % L;
  }

  lemma {:induction false} EightTimes(n: int)
    ensures (8 * n) % L == 0 <==> n % L == 0
  {
    var q, r := n / L, n % L;
    if r == 0 {
      DivModUnique(8 * n, L, 8 * q, 0);
    } else {
      EightResidue(r);
      var t, s := 8 * r / L, (8 * r) % L;
      assert 8 * r == t * L + s && n == q * L + r;
      DivModUnique(8 * n, L, 8 * q + t, s);
    }
  }

  lemma {:induction false} LIsOdd(n: int)
    ensures (2 * n) % L == 0 <==> n % L == 0
  {
    EightTimes(n);
    if n % L == 0 {
      DivModUnique(2 * n, L, 2 * (n / L), 0);
    } else if (2 * n) % L == 0 {
      DivModUnique(8 * n, L, 4 * (2 * n / L), 0);
    }
  }

  /** No multiple of L between 2^254 and 2^255 is divisible by eight. */
  lemma {:induction false} ClampedIsNoMultiple(v: nat)
    requires TWO_254 <= v < TWO_255 && v % 8 == 0
    ensures v % L != 0
  {
    var q := v / L;
    assert 3 <= q <= 7;
  }

  lemma {:induction false} BelowL(r: nat)
    requires r < L
    ensures r % L == r
  {
  }

  // ---------- Inverses ----------

  /** `x` has an inverse modulo `m`. */
  ghost predicate Invertible(m: nat, x: int)
    requires m > 0
  {
    exists z: nat :: z < m && (x * z) % m == 1 % m
  }

  /** What primality of the modulus is used for. */
  ghost predicate PrimeModulus(m: nat)
    requires m > 0
  {
    forall x: nat :: 0 < x < m ==> Invertible(m, x)
  }

  /** A factor with an inverse can be cancelled. */
  lemma {:induction false} Cancel(m: nat, a: int, b: int, x: int, z: int)
    requires m > 0 && Cong(m, x * z, 1) && Cong(m, a * x, b * x)
    ensures Cong(m, a, b)
  {
    CongRefl(m, z); CongRefl(m, a - b);
    CongAdd(m, a * x, b * x, b * x, b * x);
    assert a * x - b * x == (a - b) * x && b * x - b * x == 0;
    CongMul(m, (a - b) * x, 0, z, z);
    assert ((a - b) * x) * z == (a - b) * (x * z) && 0 * z == 0;
    CongMul(m, a - b, a - b, x * z, 1);
    CongSym(m, (a - b) * (x * z), (a - b) * 1);
    CongTrans(m, a - b, (a - b) * (x * z), 0);
  }

  /** With every non-zero residue invertible, so is every integer that is no multiple. */
  lemma {:induction false} InverseOf(m: nat, x: int) returns (z: nat)
    requires m > 1 && PrimeModulus(m) && x % m != 0
    ensures z < m && Cong(m, x * z, 1)
  {
    assert Invertible(m, x % m);
    z :| z < m && ((x % m) * z) % m == 1 % m;
    MulModRight(m, x, z);
    CongSameMod(m, x * z, 1);
  }

  /** With every non-zero residue invertible, a product vanishes only if a factor does. */
  lemma {:induction false} NoZeroDivisors(m: nat, a: int, b: int)
    requires m > 1 && PrimeModulus(m)
    ensures (a * b) % m == 0 <==> a % m == 0 || b % m == 0
  {
    CongSameMod(m, a * b, 0); CongSameMod(m, a, 0); CongSameMod(m, b, 0);
    CongRefl(m, a); CongRefl(m, b);
    if b % m == 0 {
      CongMul(m, a, a, b, 0);
    } else if a % m == 0 {
      CongMul(m, a, 0, b, b);
    } else if (a * b) % m == 0 {
      var z := InverseOf(m, b);
      Cancel(m, a, 0, b, z);
    }
  }

  // ---------- Congruence modulo L ----------

  lemma {:induction false} CongUnfold(p: int, q: int, d: int)
    requires p - q == d || p - q == 0 - d
    ensures Cong(L, p, q) <==> d % L == 0
  {
    CongSameMod(L, d, 0);
    if Cong(L, p, q) {
      var k := FactorOf(L, p, q);
      CongFactor(L, d, 0, if p - q == d then k else -k);
    }
    if d % L == 0 {
      var k := FactorOf(L, d, 0);
      CongFactor(L, p, q, if p - q == d then k else -k);
    }
  }

  /** The product is zero modulo L. */
  predicate Vanishes(a: int, b: int) {
    (a * b) % L == 0
  }

  /** A product with a factor zero vanishes. */
  lemma {:induction false} VanishingFactor(a: int, b: int)
    requires a == 0 || b % L == 0
    ensures Vanishes(a, b)
  {
    if b % L == 0 {
      assert b == (b / L) * L;
      MulAssoc(a, b / L, L);
      DivModUnique(a * b, L, a * (b / L), 0);
    }
  }

  lemma {:induction false} ProductVanishes(h: nat, a: nat, b: nat)
    requires PrimeModulus(L) && h < L
    ensures Vanishes(h, a - b) <==> h == 0 || a % L == b % L
  {
    hide PrimeModulus, Cong;
    NoZeroDivisors(L, h, a - b);
    CongSameMod(L, a, b);
    CongUnfold(a, b, a - b);
  }
}
