/** Byte strings, little-endian integers and bitwise operations on bytes. */
module Bytes {

  type byte = x: int | 0 <= x < 256
  type bytes = seq<byte>

  /** A 32-byte key, scalar or encoded point. */
  type Key = b: bytes | |b| == 32 witness Zeros(32)

  function Zeros(n: nat): (z: bytes)
    ensures |z| == n && forall i :: 0 <= i < n ==> z[i] == 0
  {
    seq(n, _ => 0)
  }

  const NULL_KEY: Key := Zeros(32)

  // ---------- Powers of two ----------

  function Pow2(w: nat): (p: nat)
    ensures p > 0
  {
    if w == 0 then 1 else 2 * Pow2(w - 1)
  }

  lemma {:induction false} Pow2Monotone(a: nat, b: nat)
    requires a <= b
    ensures Pow2(a) <= Pow2(b)
  {
    if a < b {
      Pow2Monotone(a, b - 1);
    }
  }

  // ---------- Little-endian integers ----------

  function Pow256(w: nat): (p: nat)
    ensures p > 0
  {
    if w == 0 then 1 else 256 * Pow256(w - 1)
  }

  /** The low `w` bytes of `n`, least significant first. */
  function ToLE(n: nat, w: nat): (b: bytes)
    ensures |b| == w
  {
    if w == 0 then [] else [n % 256] + ToLE(n / 256, w - 1)
  }

  function FromLE(b: bytes): (n: nat)
    ensures n < Pow256(|b|)
  {
    if b == [] then 0 else b[0] + 256 * FromLE(b[1..])
  }

  lemma {:induction false} FromLEToLE(n: nat, w: nat)
    requires n < Pow256(w)
    ensures FromLE(ToLE(n, w)) == n
  {
    if w > 0 {
      FromLEToLE(n / 256, w - 1);
      assert ToLE(n, w)[1..] == ToLE(n / 256, w - 1);
    }
  }

  lemma {:induction false} ToLEFromLE(b: bytes)
    ensures ToLE(FromLE(b), |b|) == b
  {
    if b != [] {
      ToLEFromLE(b[1..]);
      assert FromLE(b) / 256 == FromLE(b[1..]);
      assert b == [b[0]] + b[1..];
    }
  }

  lemma {:induction false} FromLEInjective(a: bytes, b: bytes)
    requires |a| == |b| && FromLE(a) == FromLE(b)
    ensures a == b
  {
    ToLEFromLE(a);
    ToLEFromLE(b);
  }

  lemma {:induction false} FromLEConcat(a: bytes, b: bytes)
    ensures FromLE(a + b) == FromLE(a) + Pow256(|a|) * FromLE(b)
  {
    if a == [] {
      assert a + b == b;
    } else {
      FromLEConcat(a[1..], b);
      assert (a + b)[1..] == a[1..] + b;
      var p, t, n := Pow256(|a| - 1), FromLE(a[1..]), FromLE(b);
      assert FromLE(a + b) == a[0] + 256 * (t + p * n);
      MulAssoc(256, p, n);
    }
  }

  lemma {:induction false} MulAssoc(a: int, b: int, c: int)
    ensures a * (b * c) == (a * b) * c
  {
  }

  const TWO_32: nat := 0x1_0000_0000

  lemma {:induction false} Pow256Of4()
    ensures Pow256(4) == TWO_32
  {
    assert Pow256(1) == 256;
    assert Pow256(2) == 256 * 256;
    assert Pow256(3) == 256 * 256 * 256;
  }

  // ---------- Bitwise operations, bit by bit ----------

  function XorBits(w: nat, a: nat, b: nat): (r: nat)
    ensures r < Pow2(w)
  {
    if w == 0 then 0 else 2 * XorBits(w - 1, a / 2, b / 2) + (a + b) % 2
  }

  function AndBits(w: nat, a: nat, b: nat): (r: nat)
    ensures r < Pow2(w)
  {
    if w == 0 then 0 else 2 * AndBits(w - 1, a / 2, b / 2) + if a % 2 == 1 && b % 2 == 1 then 1 else 0
  }

  function OrBits(w: nat, a: nat, b: nat): (r: nat)
    ensures r < Pow2(w)
  {
    if w == 0 then 0 else 2 * OrBits(w - 1, a / 2, b / 2) + if a % 2 == 1 || b % 2 == 1 then 1 else 0
  }

  lemma {:induction false} Pow2Of8()
    ensures Pow2(8) == 256
  {
    assert Pow2(2) == 4;
    assert Pow2(4) == 16;
    assert Pow2(6) == 64;
  }

  function Xor(a: byte, b: byte): byte { Pow2Of8(); XorBits(8, a, b) }
  function And(a: byte, b: byte): byte { Pow2Of8(); AndBits(8, a, b) }
  function Or(a: byte, b: byte): byte { Pow2Of8(); OrBits(8, a, b) }

  lemma {:induction false} XorStep(w: nat, a: nat, b: nat)
    requires w > 0
    ensures XorBits(w, a, b) == 2 * XorBits(w - 1, a / 2, b / 2) + (a + b) % 2
  {
  }

  lemma {:induction false} Parity(x: nat, a: nat, b: nat)
    ensures (2 * x + (a + b) % 2) / 2 == x
    ensures (2 * x + (a + b) % 2 + b) % 2 == a % 2
  {
  }

  lemma {:induction false} HalfBelow(w: nat, a: nat)
    requires w > 0 && a < Pow2(w)
    ensures a / 2 < Pow2(w - 1)
  {
  }

  lemma {:induction false} XorBitsBack(w: nat, a: nat, b: nat)
    requires a < Pow2(w)
    ensures XorBits(w, XorBits(w, a, b), b) == a
  {
    if w > 0 {
      hide XorBits, Pow2;
      HalfBelow(w, a);
      XorBitsBack(w - 1, a / 2, b / 2);
      var x := XorBits(w - 1, a / 2, b / 2);
      XorStep(w, a, b);
      XorStep(w, 2 * x + (a + b) % 2, b);
      Parity(x, a, b);
    }
  }

  /** Xor with the same byte twice is the identity. */
  lemma {:induction false} XorBack(a: byte, b: byte)
    ensures Xor(Xor(a, b), b) == a
  {
    Pow2Of8();
    XorBitsBack(8, a, b);
  }

  lemma {:induction false} XorBitsComm(w: nat, a: nat, b: nat)
    ensures XorBits(w, a, b) == XorBits(w, b, a)
  {
    if w > 0 {
      XorBitsComm(w - 1, a / 2, b / 2);
    }
  }

  lemma {:induction false} XorBitsZero(w: nat, a: nat)
    requires a < Pow2(w)
    ensures XorBits(w, a, 0) == a
  {
    if w > 0 {
      XorBitsZero(w - 1, a / 2);
    }
  }

  /** Xor of the masked difference: all ones turn `a` into `b`, all zeros leave it. */
  lemma {:induction false} XorMasked(a: byte, b: byte)
    ensures Xor(a, And(Xor(a, b), 255)) == b
    ensures Xor(a, And(Xor(a, b), 0)) == a
  {
    hide XorBits, AndBits;
    Pow2Of8();
    AndOnes(8, Xor(a, b));
    AndZero(8, Xor(a, b));
    XorBitsZero(8, a);
    XorBitsComm(8, a, b);
    XorBitsComm(8, a, Xor(a, b));
    XorBitsBack(8, b, a);
  }

  lemma {:induction false} AndZero(w: nat, a: nat)
    ensures AndBits(w, a, 0) == 0
  {
    if w > 0 {
      AndZero(w - 1, a / 2);
    }
  }

  lemma {:induction false} AndOnes(w: nat, a: nat)
    requires a < Pow2(w)
    ensures AndBits(w, a, Pow2(w) - 1) == a
  {
    if w > 0 {
      AndOnes(w - 1, a / 2);
      assert (Pow2(w) - 1) / 2 == Pow2(w - 1) - 1;
    }
  }

  /** One step of masking with an even or an odd mask. */
  lemma {:induction false} AndStep(w: nat, a: nat, m: nat)
    requires w > 0
    ensures AndBits(w, a, 2 * m) == 2 * AndBits(w - 1, a / 2, m)
    ensures AndBits(w, a, 2 * m + 1) == 2 * AndBits(w - 1, a / 2, m) + a % 2
  {
  }

  lemma {:induction false} HalfMod(a: nat, m: nat)
    requires m > 0
    ensures a % (2 * m) == 2 * (a / 2 % m) + a % 2
  {
    var q, r := a / 2 / m, a / 2 % m;
    assert a / 2 == q * m + r;
    MulAssoc(q, 2, m);
    DivModUnique(a, 2 * m, q, 2 * r + a % 2);
  }

  /** The `k` low bits of `a`. */
  function LowBits(k: nat, a: nat): (r: nat)
    ensures r < Pow2(k)
  {
    if k == 0 then 0 else 2 * LowBits(k - 1, a / 2) + a % 2
  }

  lemma {:induction false} LowBitsIsMod(k: nat, a: nat)
    ensures LowBits(k, a) == a % Pow2(k)
  {
    if k > 0 {
      LowBitsIsMod(k - 1, a / 2);
      HalfMod(a, Pow2(k - 1));
    }
  }

  lemma {:induction false} LowBitsStep(k: nat, a: nat)
    requires k > 0
    ensures LowBits(k, a) == 2 * LowBits(k - 1, a / 2) + a % 2
  {
  }

  lemma {:induction false} Pow2Step(k: nat)
    requires k > 0
    ensures Pow2(k) == 2 * Pow2(k - 1)
  {
  }

  lemma {:induction false} LowestBits(a: nat)
    ensures Pow2(0) == 1 && LowBits(0, a) == 0
  {
  }

  /** A mask of `k` low ones keeps the low bits. */
  lemma {:induction false} AndLowMask(w: nat, k: nat, a: nat)
    requires k <= w
    ensures AndBits(w, a, Pow2(k) - 1) == LowBits(k, a)
  {
    hide AndBits, LowBits, Pow2;
    if k == 0 {
      LowestBits(a);
      AndZero(w, a);
    } else {
      var m: nat := Pow2(k - 1) - 1;
      AndLowMask(w - 1, k - 1, a / 2);
      LowBitsStep(k, a);
      Pow2Step(k);
      AndStep(w, a, m);
      assert Pow2(k) - 1 == 2 * m + 1;
    }
  }

  /** A mask without the `k` low ones clears the low bits. */
  lemma {:induction false} AndHighMask(w: nat, k: nat, a: nat)
    requires k <= w && a < Pow2(w)
    ensures Pow2(k) <= Pow2(w)
    ensures AndBits(w, a, Pow2(w) - Pow2(k)) == a - LowBits(k, a)
  {
    hide AndBits, LowBits, Pow2;
    Pow2Monotone(k, w);
    if k == 0 {
      LowestBits(a);
      AndOnes(w, a);
    } else {
      HalfBelow(w, a);
      Pow2Monotone(k - 1, w - 1);
      var m: nat := Pow2(w - 1) - Pow2(k - 1);
      AndHighMask(w - 1, k - 1, a / 2);
      LowBitsStep(k, a);
      Pow2Step(k);
      Pow2Step(w);
      AndStep(w, a, m);
      assert Pow2(w) - Pow2(k) == 2 * m;
    }
  }

  /** `a & 0x3f` and `a & 0x7f` drop the high bits, `a & 0xf8` the three low ones. */
  lemma {:induction false} AndMasks(a: byte)
    ensures And(a, 63) == a % 64
    ensures And(a, 127) == a % 128
    ensures And(a, 248) == a - a % 8
  {
    Pow2Of8();
    assert Pow2(3) == 8;
    AndLowMask(8, 6, a);
    AndLowMask(8, 7, a);
    AndHighMask(8, 3, a);
    LowBitsIsMod(6, a);
    LowBitsIsMod(7, a);
    LowBitsIsMod(3, a);
  }

  lemma {:induction false} OrZero(w: nat, a: nat)
    requires a < Pow2(w)
    ensures OrBits(w, a, 0) == a
  {
    if w > 0 {
      OrZero(w - 1, a / 2);
    }
  }

  lemma {:induction false} OrHighBit(w: nat, k: nat, a: nat)
    requires k < w && a < Pow2(k)
    ensures OrBits(w, a, Pow2(k)) == a + Pow2(k)
  {
    if k == 0 {
      OrZero(w - 1, 0);
    } else {
      OrHighBit(w - 1, k - 1, a / 2);
    }
  }

  /** `a | 0x40` sets bit six. */
  lemma {:induction false} OrBitSix(a: byte)
    requires a < 64
    ensures Or(a, 64) == a + 64
  {
    Pow2Of8();
    OrHighBit(8, 6, a);
  }

  lemma {:induction false} DivModUnique(a: int, m: int, q: int, r: int)
    requires m > 0 && 0 <= r < m && a == q * m + r
    ensures a / m == q && a % m == r
  {
    var k := q - a / m;
    assert k * m == q * m - a / m * m;
    assert (k - 1) * m < 0;
    assert (k + 1) * m > 0;
    SignOfProduct(k - 1, m);
    SignOfProduct(k + 1, m);
  }

  lemma {:induction false} SignOfProduct(k: int, m: int)
    requires m > 0
    ensures k * m > 0 <==> k > 0
    ensures k * m < 0 <==> k < 0
  {
  }
}
