/** Bit operations on unsigned numbers, by their binary digits. */
module Bits {

  function Pow2(n: nat): (p: nat)
    ensures p > 0
  {
    if n == 0 then 1 else 2 * Pow2(n - 1)
  }

  function And(x: nat, y: nat): nat {
    if x == 0 || y == 0 then 0 else 2 * And(x / 2, y / 2) + (if x % 2 == 1 && y % 2 == 1 then 1 else 0)
  }

  function Xor(x: nat, y: nat): nat
    decreases x + y
  {
    if x == 0 then y else if y == 0 then x
    else 2 * Xor(x / 2, y / 2) + (if x % 2 == y % 2 then 0 else 1)
  }

  /** Bit `i` of `x`, bit 0 being the least significant. */
  function Bit(x: nat, i: nat): nat {
    x / Pow2(i) % 2
  }

  /** Do `x` and `y` agree under the mask `m`? */
  predicate MaskedEq(x: nat, y: nat, m: nat) {
    And(x, m) == And(y, m)
  }

  lemma {:induction false} Pow2Sum(a: nat, b: nat)
    ensures Pow2(a + b) == Pow2(a) * Pow2(b)
  {
    if a != 0 {
      Pow2Sum(a - 1, b);
      assert Pow2(a + b) == 2 * Pow2(a - 1 + b);
    }
  }

  lemma Pow2Double(n: nat, v: nat)
    requires Pow2(n) == v
    ensures Pow2(2 * n) == v * v
  {
    Pow2Sum(n, n);
  }

  lemma Pow2Values()
    ensures Pow2(8) == 0x100 && Pow2(16) == 0x1_0000
    ensures Pow2(32) == 0x1_0000_0000 && Pow2(64) == 0x1_0000_0000_0000_0000
    ensures Pow2(96) == 0x1_0000_0000_0000_0000_0000_0000
    ensures Pow2(128) == 0x1_0000_0000_0000_0000_0000_0000_0000_0000
  {
    Pow2Double(1, 2);
    Pow2Double(2, 4);
    Pow2Double(4, 0x10);
    Pow2Double(8, 0x100);
    Pow2Double(16, 0x1_0000);
    Pow2Double(32, 0x1_0000_0000);
    Pow2Sum(64, 32);
    Pow2Double(64, 0x1_0000_0000_0000_0000);
  }

  lemma Pow2Monotonic(a: nat, b: nat)
    requires a <= b
    ensures Pow2(a) <= Pow2(b)
  {
    if a < b {
      Pow2Monotonic(a, b - 1);
    }
  }

  /** Unfolding `And` and `Xor` needs no test for zero. */
  lemma AndStep(x: nat, y: nat)
    ensures And(x, y) == 2 * And(x / 2, y / 2) + (if x % 2 == 1 && y % 2 == 1 then 1 else 0)
  {
  }

  lemma XorStep(x: nat, y: nat)
    ensures Xor(x, y) == 2 * Xor(x / 2, y / 2) + (if x % 2 == y % 2 then 0 else 1)
  {
  }

  lemma {:induction false} AndXor(a: nat, b: nat, m: nat)
    ensures And(Xor(a, b), m) == 0 <==> MaskedEq(a, b, m)
    decreases a + b + m
  {
    AndStep(a, m);
    AndStep(b, m);
    XorStep(a, b);
    AndStep(Xor(a, b), m);
    if a + b + m > 0 {
      AndXor(a / 2, b / 2, m / 2);
      assert Xor(a, b) / 2 == Xor(a / 2, b / 2);
    }
  }

  lemma {:induction false} AndOnes(x: nat, n: nat)
    requires x < Pow2(n)
    ensures And(x, Pow2(n) - 1) == x
  {
    hide And;
    if n == 0 {
      AndZero();
    } else {
      AndStep(x, Pow2(n) - 1);
      assert (Pow2(n) - 1) / 2 == Pow2(n - 1) - 1;
      AndOnes(x / 2, n - 1);
    }
  }

  lemma MulAtLeast(a: int, d: nat)
    requires a >= 1
    ensures a * d >= d
  {
  }

  lemma DivUnique(x: nat, d: nat, q: nat, r: nat)
    requires d > 0 && x == q * d + r && r < d
    ensures x / d == q && x % d == r
  {
    var q', r' := x / d, x % d;
    assert (q - q') * d == r' - r;
    if q' < q {
      MulAtLeast(q - q', d);
      assert false;
    }
    if q < q' {
      assert (q' - q) * d == r - r';
      MulAtLeast(q' - q, d);
      assert false;
    }
  }

  lemma Distribute(q: int, b: int, r: int, a: int)
    ensures (q * b + r) * a == q * (a * b) + r * a
  {
  }

  lemma DivDiv(x: nat, a: nat, b: nat)
    requires a > 0 && b > 0
    ensures a * b > 0 && x / (a * b) == x / a / b
  {
    var y, s := x / a, x % a;
    var q, r := y / b, y % b;
    MulDivides(x, a);
    MulDivides(y, b);
    Distribute(q, b, r, a);
    MulAtLeast(a, b);
    RowBound(a, b, r, s);
    DivUnique(x, a * b, q, r * a + s);
  }

  lemma MulDivides(x: nat, a: nat)
    requires a > 0
    ensures x == x / a * a + x % a
  {
  }

  lemma RowBound(a: nat, b: nat, r: nat, s: nat)
    requires r < b && s < a
    ensures r * a + s < a * b
  {
    MulAtLeast(b - r, a);
    assert (b - r) * a == a * b - r * a;
  }

  lemma AndEven(x: nat, h: nat)
    ensures And(x, 2 * h) == 2 * And(x / 2, h)
  {
    hide And;
    AndStep(x, 2 * h);
  }

  lemma DivHalf(x: nat, k: nat)
    requires k > 0
    ensures x / Pow2(k) == x / 2 / Pow2(k - 1)
  {
    DivDiv(x, 2, Pow2(k - 1));
  }

  /** A prefix mask compares exactly the bits it keeps. */
  lemma {:induction false} MaskedEqPrefix(x: nat, y: nat, n: nat, k: nat)
    requires k <= n && x < Pow2(n) && y < Pow2(n)
    ensures Pow2(k) <= Pow2(n)
    ensures MaskedEq(x, y, Pow2(n) - Pow2(k)) <==> x / Pow2(k) == y / Pow2(k)
  {
    hide And;
    Pow2Monotonic(k, n);
    if k == 0 {
      AndOnes(x, n);
      AndOnes(y, n);
    } else {
      MaskedEqPrefix(x / 2, y / 2, n - 1, k - 1);
      AndEven(x, Pow2(n - 1) - Pow2(k - 1));
      AndEven(y, Pow2(n - 1) - Pow2(k - 1));
      DivHalf(x, k);
      DivHalf(y, k);
    }
  }

  lemma MulPow2(x: nat, n: nat)
    requires n > 0
    ensures x * Pow2(n) == 2 * (x * Pow2(n - 1))
  {
  }

  /** Masking works on the upper and lower part of a number separately. */
  lemma {:induction false} AndSplit(xh: nat, xl: nat, yh: nat, yl: nat, n: nat)
    requires xl < Pow2(n) && yl < Pow2(n)
    ensures And(xh * Pow2(n) + xl, yh * Pow2(n) + yl) == And(xh, yh) * Pow2(n) + And(xl, yl)
  {
    hide And;
    if n == 0 {
      AndZero();
    } else {
      var p := Pow2(n - 1);
      var xt, yt, t := xh * p, yh * p, And(xh, yh) * p;
      AndSplit(xh, xl / 2, yh, yl / 2, n - 1);
      AndSplitStep(xt, xl, yt, yl);
      MulPow2(xh, n);
      MulPow2(yh, n);
      MulPow2(And(xh, yh), n);
    }
  }

  lemma AndZero()
    ensures And(0, 0) == 0
  {
  }

  lemma AndSplitStep(xt: nat, xl: nat, yt: nat, yl: nat)
    ensures And(2 * xt + xl, 2 * yt + yl) == 2 * And(xt + xl / 2, yt + yl / 2) + (And(xl, yl) - 2 * And(xl / 2, yl / 2))
  {
    AndStep(2 * xt + xl, 2 * yt + yl);
    AndStep(xl, yl);
    assert (2 * xt + xl) / 2 == xt + xl / 2 && (2 * yt + yl) / 2 == yt + yl / 2;
  }

  lemma {:induction false} AndBound(x: nat, y: nat)
    ensures And(x, y) <= y
  {
    if x != 0 && y != 0 {
      AndBound(x / 2, y / 2);
    }
  }

  lemma MaskedEqSplit(xh: nat, xl: nat, yh: nat, yl: nat, mh: nat, ml: nat, n: nat)
    requires xl < Pow2(n) && yl < Pow2(n) && ml < Pow2(n)
    ensures MaskedEq(xh * Pow2(n) + xl, yh * Pow2(n) + yl, mh * Pow2(n) + ml)
            <==> MaskedEq(xh, yh, mh) && MaskedEq(xl, yl, ml)
  {
    AndSplit(xh, xl, mh, ml, n);
    AndSplit(yh, yl, mh, ml, n);
    AndBound(xl, ml);
    AndBound(yl, ml);
    var p := Pow2(n);
    DivUnique(And(xh, mh) * p + And(xl, ml), p, And(xh, mh), And(xl, ml));
    DivUnique(And(yh, mh) * p + And(yl, ml), p, And(yh, mh), And(yl, ml));
  }
}
