/** Covering an address interval by a prefix. */
module Prefix {
  import opened Words
  import opened Bits

  /** Bit `i` of a 128-bit value, bit 0 being the least significant. */
  function WordBit(w: Words, i: nat): nat
    requires i < 128
  {
    Bit(w[i / 32], i % 32)
  }

  /** Reading a bit from its word is reading it from the number. */
  lemma WordBitIsBit(w: Words, i: nat)
    requires i < 128
    ensures WordBit(w, i) == Bit(Val(w), i)
  {
    var q, r := i / 32, i % 32;
    var above, below := Above(w, q), Below(w, q);
    BaseIsPow2(q);
    ValSplit(w, q);
    Pow2Sum(32 * q, r);
    var word := w[q] + B32 * above;
    DivUnique(Val(w), Base(q), word, below);
    DivDiv(Val(w), Base(q), Pow2(r));
    BitOfSum(w[q], above, r);
  }

  function Above(w: Words, q: nat): nat
    requires q < 4
  {
    if q == 0 then w[1] + B32 * w[2] + B64 * w[3]
    else if q == 1 then w[2] + B32 * w[3]
    else if q == 2 then w[3] else 0
  }

  function Below(w: Words, q: nat): nat
    requires q < 4
  {
    if q == 0 then 0
    else if q == 1 then w[0]
    else if q == 2 then w[0] + B32 * w[1]
    else w[0] + B32 * w[1] + B64 * w[2]
  }

  function Base(q: nat): nat
    requires q < 4
  {
    if q == 0 then 1 else if q == 1 then B32 else if q == 2 then B64 else B96
  }

  lemma BaseIsPow2(q: nat)
    requires q < 4
    ensures Base(q) == Pow2(32 * q)
  {
    Pow2Values();
  }

  lemma ValSplit(w: Words, q: nat)
    requires q < 4
    ensures Below(w, q) < Base(q)
    ensures Val(w) == (w[q] + B32 * Above(w, q)) * Base(q) + Below(w, q)
  {
    if q == 0 {
    } else if q == 1 {
    } else if q == 2 {
    } else {
    }
  }

  /** Words above bit 31 do not show in the bits below. */
  lemma BitOfSum(x: u32, h: nat, r: nat)
    requires r < 32
    ensures Bit(x + B32 * h, r) == Bit(x, r)
  {
    Pow2Values();
    Pow2Sum(31 - r, r);
    Pow2Sum(1, 31);
    var p, q := Pow2(r), Pow2(31 - r);
    var c := q * p;
    assert B32 * h == 2 * c * h;
    SumDigit(x, h, p, q);
  }

  lemma SumDigit(x: nat, h: nat, p: nat, q: nat)
    requires p > 0
    ensures 0 <= 2 * (q * p) * h
    ensures (x + 2 * (q * p) * h) / p % 2 == x / p % 2
  {
    Reorder(q, p, h);
    AddMultiple(x, p, 2 * (q * h));
    EvenShift(x / p, q * h);
  }

  lemma EvenShift(y: nat, k: nat)
    ensures (y + 2 * k) % 2 == y % 2
  {
  }

  lemma Reorder(q: nat, p: nat, h: nat)
    ensures 2 * (q * p) * h == 2 * (q * h) * p
  {
    assert (q * p) * h == (q * h) * p;
    assert 2 * (q * p) * h == 2 * ((q * p) * h);
    assert 2 * (q * h) * p == 2 * ((q * h) * p);
  }

  lemma AddMultiple(x: nat, p: nat, k: nat)
    requires p > 0
    ensures (x + k * p) / p == x / p + k
  {
    assert (x / p + k) * p == x / p * p + k * p;
    DivUnique(x + k * p, p, x / p + k, x % p);
  }

  /** The number above bit `k` gains a digit when one more bit is looked at. */
  lemma TopStep(x: nat, k: nat)
    ensures x / Pow2(k) == 2 * (x / Pow2(k + 1)) + Bit(x, k)
  {
    DivDiv(x, Pow2(k), 2);
  }

  /** The weight of bit `k` in `x`. */
  function Weight(x: nat, k: nat): nat {
    if Bit(x, k) == 1 then Pow2(k) else 0
  }

  lemma LowStep(x: nat, k: nat)
    ensures x % Pow2(k + 1) == Weight(x, k) + x % Pow2(k)
  {
    TopStep(x, k);
    LowStepMul(x, x / Pow2(k + 1), Bit(x, k), Pow2(k));
  }

  lemma LowStepMul(x: nat, t: nat, b: nat, p: nat)
    requires p > 0 && x / p == 2 * t + b && b < 2
    ensures x % (2 * p) == (if b == 1 then p else 0) + x % p
  {
    assert x == (2 * t + b) * p + x % p;
    assert (2 * t + b) * p == t * (2 * p) + b * p;
    DivUnique(x, 2 * p, t, b * p + x % p);
  }

  lemma ValUpdate(w: Words, q: nat, v: u32)
    requires q < 4
    ensures Val(w[q := v]) == Val(w) + (v - w[q]) * Base(q)
  {
  }

  /** `w &= ~(1 << bit i)` on the word that holds bit `i`. */
  function ClearBit(w: Words, i: nat): Words
    requires i < 128
  {
    WeightBound(w[i / 32], i % 32);
    w[i / 32 := w[i / 32] - Weight(w[i / 32], i % 32)]
  }

  lemma WeightBound(x: nat, r: nat)
    ensures Weight(x, r) <= x
  {
    if Bit(x, r) == 1 {
      MulAtLeast(x / Pow2(r), Pow2(r));
    }
  }

  lemma WeightInWord(w: Words, i: nat)
    requires i < 128
    ensures Weight(w[i / 32], i % 32) * Base(i / 32) == Weight(Val(w), i)
    ensures Pow2(i % 32) * Base(i / 32) == Pow2(i)
  {
    hide Bit;
    WordBitIsBit(w, i);
    BaseIsPow2(i / 32);
    Pow2Sum(i % 32, 32 * (i / 32));
  }

  lemma ClearBitVal(w: Words, i: nat)
    requires i < 128
    ensures Val(ClearBit(w, i)) == Val(w) - Weight(Val(w), i)
  {
    hide Bit, Pow2, Weight;
    var q, x := i / 32, Weight(w[i / 32], i % 32);
    WeightBound(w[q], i % 32);
    ValUpdate(w, q, w[q] - x);
    WeightInWord(w, i);
  }

  /** `w |= 1 << bit i` on the word that holds bit `i`. */
  function SetBit(w: Words, i: nat): Words
    requires i < 128
  {
    SetBound(w[i / 32], i % 32);
    w[i / 32 := if Bit(w[i / 32], i % 32) == 1 then w[i / 32] else w[i / 32] + Pow2(i % 32)]
  }

  lemma SetBound(x: u32, r: nat)
    requires r < 32
    ensures Bit(x, r) == 0 ==> x + Pow2(r) < B32
  {
    hide Pow2, Bit;
    if Bit(x, r) == 0 {
      TopStep(x, r);
      Pow2Values();
      Pow2Sum(r, 32 - r);
      Pow2Sum(1, 31 - r);
      Pow2One();
      EvenTop(x, x / Pow2(r + 1), Pow2(r), Pow2(31 - r));
    }
  }

  lemma Pow2One()
    ensures Pow2(1) == 2
  {
  }

  lemma EvenTop(x: nat, t: nat, p: nat, n: nat)
    requires p > 0 && x / p == 2 * t && x < p * (2 * n)
    ensures x + p < p * (2 * n)
  {
    MulDivides(x, p);
    if t >= n {
      Multiple(2 * n, 2 * t, p);
      assert false;
    }
    Multiple(2 * t + 2, 2 * n, p);
    assert (2 * t + 2) * p == 2 * t * p + 2 * p;
  }

  lemma Multiple(a: nat, b: nat, p: nat)
    requires a <= b
    ensures p * a <= b * p && a * p <= p * b
  {
    assert (b - a) * p >= 0;
    assert b * p == a * p + (b - a) * p;
  }

  lemma SetBitVal(w: Words, i: nat)
    requires i < 128 && Bit(Val(w), i) == 0
    ensures Val(SetBit(w, i)) == Val(w) + Pow2(i)
  {
    hide Bit, Pow2;
    var q, r := i / 32, i % 32;
    WordBitIsBit(w, i);
    SetBound(w[q], r);
    ValUpdate(w, q, w[q] + Pow2(r));
    WeightInWord(w, i);
  }

  lemma DivNat(x: nat, d: nat)
    requires d > 0
    ensures 0 <= x / d
  {
  }

  /** The first `bits` bits of `x`, as a number. */
  function Top(x: nat, bits: nat): nat
    requires bits <= 128
  {
    DivNat(x, Pow2(128 - bits));
    x / Pow2(128 - bits)
  }

  /** The last `128 - bits` bits of `x`. */
  function Low(x: nat, bits: nat): nat
    requires bits <= 128
  {
    x % Pow2(128 - bits)
  }

  lemma TopLow(x: nat, bits: nat)
    requires bits <= 128
    ensures x == Top(x, bits) * Pow2(128 - bits) + Low(x, bits) && Low(x, bits) < Pow2(128 - bits)
  {
  }

  lemma TopNext(x: nat, bits: nat)
    requires bits < 128
    ensures Top(x, bits + 1) == 2 * Top(x, bits) + Bit(x, 127 - bits)
    ensures Low(x, bits) == Weight(x, 127 - bits) + Low(x, bits + 1)
    ensures Pow2(128 - bits) == 2 * Pow2(127 - bits)
  {
    TopStep(x, 127 - bits);
    LowStep(x, 127 - bits);
  }

  lemma TopAll(x: nat)
    requires x < B128
    ensures Top(x, 0) == 0 && Low(x, 0) == x && Top(x, 128) == x && Low(x, 128) == 0
  {
    Pow2Values();
  }

  /** The longest prefix `lo` and `hi` share, its lowest address, and whether the prefix is
      exactly the interval `[lo, hi]`. */
  method CoverPrefix(lo: Words, hi: Words) returns (bits: nat, base: Words, exact: bool)
    ensures bits <= 128
    ensures Top(Val(lo), bits) == Top(Val(hi), bits)
    ensures bits < 128 ==> Top(Val(lo), bits + 1) != Top(Val(hi), bits + 1)
    ensures Val(base) == Val(lo) - Low(Val(lo), bits)
    ensures exact <==> Low(Val(lo), bits) == 0 && Low(Val(hi), bits) == Pow2(128 - bits) - 1
  {
    hide Bit, Pow2, Weight, Top, Low;
    ValBounds(lo);
    ValBounds(hi);
    TopAll(Val(lo));
    TopAll(Val(hi));
    bits := CommonBits(lo, hi);
    base := ClearFrom(lo, bits);
    exact := true;
    var i := bits;
    PowOne();
    while i < 128
      invariant bits <= i <= 128
      invariant Low(Val(lo), bits) == Low(Val(lo), i)
      invariant Low(Val(hi), bits) == Pow2(128 - bits) - Pow2(128 - i) + Low(Val(hi), i)
    {
      WordBitIsBit(lo, 127 - i);
      WordBitIsBit(hi, 127 - i);
      TopNext(Val(lo), i);
      TopNext(Val(hi), i);
      TopLow(Val(hi), i + 1);
      BitWeight(Val(lo), 127 - i);
      BitWeight(Val(hi), 127 - i);
      if WordBit(lo, 127 - i) != 0 || WordBit(hi, 127 - i) != 1 {
        return bits, base, false;
      }
      i := i + 1;
    }
  }

  lemma PowOne()
    ensures Pow2(0) == 1
  {
  }

  lemma BitWeight(x: nat, k: nat)
    ensures Bit(x, k) == 0 || Bit(x, k) == 1
    ensures Weight(x, k) == (if Bit(x, k) == 1 then Pow2(k) else 0) && Pow2(k) >= 1
  {
  }

  method CommonBits(lo: Words, hi: Words) returns (bits: nat)
    ensures bits <= 128
    ensures Top(Val(lo), bits) == Top(Val(hi), bits)
    ensures bits < 128 ==> Top(Val(lo), bits + 1) != Top(Val(hi), bits + 1)
  {
    hide Bit, Pow2, Top, Low;
    ValBounds(lo);
    ValBounds(hi);
    TopAll(Val(lo));
    TopAll(Val(hi));
    bits := 0;
    while bits < 128
      invariant bits <= 128
      invariant Top(Val(lo), bits) == Top(Val(hi), bits)
    {
      WordBitIsBit(lo, 127 - bits);
      WordBitIsBit(hi, 127 - bits);
      TopNext(Val(lo), bits);
      TopNext(Val(hi), bits);
      if WordBit(lo, 127 - bits) != WordBit(hi, 127 - bits) {
        return;
      }
      bits := bits + 1;
    }
  }

  /** Clears every bit below the first `bits`. */
  method ClearFrom(lo: Words, bits: nat) returns (base: Words)
    requires bits <= 128
    ensures Val(base) == Val(lo) - Low(Val(lo), bits)
  {
    hide Bit, Pow2, Weight, Top, Low, ClearBit;
    base := lo;
    var i := bits;
    ValBounds(lo);
    TopAll(Val(lo));
    while i < 128
      invariant bits <= i <= 128
      invariant Val(base) == Val(lo) - Low(Val(lo), bits) + Low(Val(lo), i)
      invariant forall k :: 0 <= k < 128 - i ==> Bit(Val(base), k) == Bit(Val(lo), k)
    {
      TopNext(Val(lo), i);
      ClearBitVal(base, 127 - i);
      SameWeight(Val(base), Val(lo), 127 - i);
      forall k | 0 <= k < 127 - i ensures Bit(Val(ClearBit(base, 127 - i)), k) == Bit(Val(base), k) {
        ClearKeeps(Val(base), 127 - i, k);
      }
      base := ClearBit(base, 127 - i);
      i := i + 1;
    }
  }

  lemma SameWeight(x: nat, y: nat, k: nat)
    requires Bit(x, k) == Bit(y, k)
    ensures Weight(x, k) == Weight(y, k)
  {
  }

  /** Taking a bit's weight away does not touch lower bits. */
  lemma ClearKeeps(x: nat, i: nat, k: nat)
    requires k < i
    ensures Weight(x, i) <= x && Bit(x - Weight(x, i), k) == Bit(x, k)
  {
    WeightBound(x, i);
    if Bit(x, i) == 1 {
      Pow2Sum(i - k - 1, k);
      Pow2Sum(1, i - 1);
      SumDigit(x - Pow2(i), 1, Pow2(k), Pow2(i - k - 1));
    }
  }

  /** The mask of the first `bits` bits. */
  method Mask128(bits: nat) returns (mask: Words)
    requires bits <= 128
    ensures Val(mask) == B128 - Pow2(128 - bits)
  {
    hide Bit, Pow2, SetBit;
    mask := ZEROES;
    ValOfConstants();
    Pow2Values();
    for i := 0 to bits
      invariant Val(mask) == B128 - Pow2(128 - i)
    {
      MaskGap(i);
      SetBitVal(mask, 127 - i);
      mask := SetBit(mask, 127 - i);
    }
  }

  lemma MaskGap(i: nat)
    requires i < 128
    ensures Pow2(128 - i) <= B128 && Bit(B128 - Pow2(128 - i), 127 - i) == 0
    ensures Pow2(128 - i) == 2 * Pow2(127 - i)
  {
    Pow2Values();
    Pow2Monotonic(128 - i, 128);
    Pow2Sum(i, 128 - i);
    EvenGap(B128, Pow2(127 - i), Pow2(i));
  }

  lemma EvenGap(x: nat, p: nat, n: nat)
    requires p > 0 && n > 0 && x == n * (2 * p)
    ensures 2 * p <= x && (x - 2 * p) / p % 2 == 0
  {
    MulAtLeast(n, 2 * p);
    DivUnique(x - 2 * p, p, 2 * n - 2, 0);
  }

  /** Fewer bits of equal prefixes are equal too. */
  lemma ShorterPrefix(x: nat, y: nat, b: nat, bits: nat)
    requires b <= bits <= 128 && Top(x, bits) == Top(y, bits)
    ensures Top(x, b) == Top(y, b)
  {
    Pow2Sum(128 - bits, bits - b);
    DivDiv(x, Pow2(128 - bits), Pow2(bits - b));
    DivDiv(y, Pow2(128 - bits), Pow2(bits - b));
  }

  /** No longer prefix contains both ends: the cover is the smallest one. */
  lemma CoverIsSmallest(lo: Words, hi: Words, bits: nat, b: nat)
    requires bits <= 128 && b <= 128
    requires bits < 128 ==> Top(Val(lo), bits + 1) != Top(Val(hi), bits + 1)
    requires Top(Val(lo), b) == Top(Val(hi), b)
    ensures b <= bits
  {
    if b > bits {
      ShorterPrefix(Val(lo), Val(hi), bits + 1, b);
    }
  }

  /** Everything between two numbers with a common prefix has that prefix. */
  lemma Between(lo: nat, x: nat, hi: nat, bits: nat)
    requires bits <= 128 && lo <= x <= hi && Top(lo, bits) == Top(hi, bits)
    ensures Top(x, bits) == Top(lo, bits)
  {
    var p := Pow2(128 - bits);
    DivMonotonic(lo, x, p);
    DivMonotonic(x, hi, p);
  }

  lemma DivMonotonic(x: nat, y: nat, d: nat)
    requires d > 0 && x <= y
    ensures x / d <= y / d
  {
    var q, r := x / d, y / d;
    if q > r {
      assert q * d <= x && y < r * d + d;
      MulAtLeast(q - r, d);
      assert false;
    }
  }

  /** A prefix that is exactly an interval holds nothing else. */
  lemma WithinExact(lo: nat, x: nat, hi: nat, bits: nat)
    requires bits <= 128 && Top(lo, bits) == Top(hi, bits) == Top(x, bits)
    requires Low(lo, bits) == 0 && Low(hi, bits) == Pow2(128 - bits) - 1
    ensures lo <= x <= hi
  {
    TopLow(lo, bits);
    TopLow(x, bits);
    TopLow(hi, bits);
  }

  /** Under the mask of a prefix, comparing is comparing prefixes. */
  lemma MaskedTop(x: nat, y: nat, bits: nat)
    requires bits <= 128 && x < B128 && y < B128
    ensures Pow2(128 - bits) <= B128
    ensures MaskedEq(x, y, B128 - Pow2(128 - bits)) <==> Top(x, bits) == Top(y, bits)
  {
    hide Pow2, And;
    Pow2Values();
    MaskedEqPrefix(x, y, 128, 128 - bits);
  }

  lemma BaseTop(lo: nat, bits: nat)
    requires bits <= 128
    ensures 0 <= lo - Low(lo, bits) && Top(lo - Low(lo, bits), bits) == Top(lo, bits)
  {
    TopLow(lo, bits);
    DivUnique(lo - Low(lo, bits), Pow2(128 - bits), Top(lo, bits), 0);
  }
}
