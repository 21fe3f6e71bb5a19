/** The 128-bit decimal arithmetic behind numbers in filters. */
module BigNum {
  import opened Words
  import opened Bits

  /** Powers of the word size. */
  function P(k: nat): (p: nat)
    ensures p >= 1
  {
    if k == 0 then 1 else B32 * P(k - 1)
  }

  /** The number a sequence of words denotes, word 0 the least significant. */
  function Limbs(s: seq<u32>): nat {
    if s == [] then 0 else s[0] + B32 * Limbs(s[1..])
  }

  lemma {:induction false} PSum(a: nat, b: nat)
    ensures P(a + b) == P(a) * P(b)
  {
    if a != 0 {
      PSum(a - 1, b);
      assert B32 * (P(a - 1) * P(b)) == B32 * P(a - 1) * P(b);
    }
  }

  lemma {:induction false} PMonotonic(a: nat, b: nat)
    requires a <= b
    ensures P(a) <= P(b)
  {
    if a < b {
      PMonotonic(a, b - 1);
    }
  }

  lemma {:induction false} BigUpdate(s: seq<u32>, k: nat, y: u32)
    requires k < |s|
    ensures Limbs(s[k := y]) + s[k] * P(k) == Limbs(s) + y * P(k)
  {
    if k != 0 {
      assert s[k := y][1..] == s[1..][k - 1 := y];
      BigUpdate(s[1..], k - 1, y);
      Scale(s[k], P(k - 1));
      Scale(y, P(k - 1));
    }
  }

  lemma Scale(x: nat, p: nat)
    ensures x * (B32 * p) == B32 * (x * p)
  {
  }

  lemma {:induction false} BigBound(s: seq<u32>)
    ensures Limbs(s) < P(|s|)
  {
    if s != [] {
      BigBound(s[1..]);
    }
  }

  lemma {:induction false} BigSplit(s: seq<u32>, k: nat)
    requires k <= |s|
    ensures Limbs(s) == Limbs(s[..k]) + P(k) * Limbs(s[k..])
  {
    if k == 0 {
      assert s[0..] == s;
    } else {
      BigSplit(s[1..], k - 1);
      assert s[1..][..k - 1] == s[..k][1..];
      assert s[1..][k - 1..] == s[k..];
      assert B32 * (P(k - 1) * Limbs(s[k..])) == P(k) * Limbs(s[k..]);
    }
  }

  lemma BigAppend(s: seq<u32>, k: nat)
    requires k < |s|
    ensures Limbs(s[..k + 1]) == Limbs(s[..k]) + s[k] * P(k)
  {
    var t := s[..k + 1];
    BigSplit(t, k);
    assert t[..k] == s[..k] && t[k..] == [s[k]];
    assert Limbs([s[k]]) == s[k];
    assert P(k) * s[k] == s[k] * P(k);
  }

  lemma {:induction false} BigZero(n: nat, s: seq<u32>)
    requires |s| == n && forall k :: 0 <= k < n ==> s[k] == 0
    ensures Limbs(s) == 0
  {
    if n != 0 {
      BigZero(n - 1, s[1..]);
    }
  }

  /** Four words are the 128-bit value of the rest of the model. */
  lemma BigIsVal(w: Words)
    ensures Limbs(w) == Val(w)
  {
    assert w[1..][1..] == w[2..] && w[2..][1..] == w[3..] && w[3..][1..] == [];
    assert Limbs(w[3..]) == w[3];
    assert Limbs(w[2..]) == w[2] + B32 * w[3];
    assert Limbs(w[1..]) == w[1] + B32 * w[2] + B64 * w[3];
  }

  /** One carry step keeps the sum: word `x` takes the low half of `t`. */
  lemma CarryStep(x: nat, t: nat, p: nat)
    ensures var s := x + t % B32;
            (s % B32) * p + (t / B32 + s / B32) * (B32 * p) == x * p + t * p
  {
    var s := x + t % B32;
    var up := t / B32 + s / B32;
    assert s % B32 + B32 * up == x + t;
    assert (s % B32) * p + up * (B32 * p) == (s % B32 + B32 * up) * p by {
      assert up * (B32 * p) == B32 * up * p;
    }
    assert (x + t) * p == x * p + t * p;
  }

  /** A carry that is still alive has room left. */
  lemma CarryFits(t: nat, k: nat, n: nat, total: nat)
    requires t != 0 && t * P(k) <= total < P(n)
    ensures k < n
  {
    hide P;
    MulAtLeast(t, P(k));
    if n <= k {
      PMonotonic(n, k);
      assert false;
    }
  }

  /** A product of words at word `k`. */
  function Term(a: nat, c: nat, k: nat): nat {
    a * c * P(k)
  }

  /** Adds `a * c` at word `i`, carrying upwards.  The loop's bound is 9 words whatever the
      length of `r`; the carry dies before it leaves `r`. */
  method MulRound(a: u32, c: u32, r: array<u32>, i: nat)
    requires r.Length <= 9
    requires Limbs(r[..]) + Term(a, c, i) < P(r.Length)
    modifies r
    ensures Limbs(r[..]) == old(Limbs(r[..])) + Term(a, c, i)
  {
    hide P, Limbs;
    ghost var total := Limbs(r[..]) + Term(a, c, i);
    var t: nat := a * c;
    var k := i;
    while k < 9 && t != 0
      invariant i <= k
      invariant Limbs(r[..]) + t * P(k) == total < P(r.Length)
      decreases 9 - k
    {
      CarryFits(t, k, r.Length, total);
      var s := r[k] + t % B32;
      var low: u32 := s % B32;
      BigUpdate(r[..], k, low);
      CarryStep(r[k], t, P(k));
      PNext(k);
      ghost var before := r[..];
      r[k] := low;
      assert r[..] == before[k := low];
      t := t / B32 + s / B32;
      k := k + 1;
    }
    if t != 0 {
      CarryFits(t, k, r.Length, total);
      assert false;
    }
    assert t * P(k) == 0;
  }

  lemma PNext(k: nat)
    ensures P(k + 1) == B32 * P(k)
  {
  }

  const TENTH: seq<u32> := [0x9999_999A, 0x9999_9999, 0x9999_9999, 0x9999_9999, 0x1999_9999]

  const B160: nat := B128 * B32

  /** The constant is a tenth of 2^160, rounded up. */
  lemma TenthIsExact()
    ensures 10 * Limbs(TENTH) == B160 + 4
    ensures P(4) == B128 && P(5) == B160
  {
    assert TENTH[1..] == [0x9999_9999, 0x9999_9999, 0x9999_9999, 0x1999_9999];
    assert TENTH[1..][1..] == [0x9999_9999, 0x9999_9999, 0x1999_9999];
    assert TENTH[1..][1..][1..] == [0x9999_9999, 0x1999_9999];
    assert TENTH[1..][1..][1..][1..] == [0x1999_9999];
    assert Limbs([0x1999_9999]) == 0x1999_9999;
    assert Limbs([0x9999_9999, 0x1999_9999]) == 0x1999_9999_9999_9999;
    assert Limbs([0x9999_9999, 0x9999_9999, 0x1999_9999]) == 0x1999_9999_9999_9999_9999_9999;
    assert Limbs([0x9999_9999, 0x9999_9999, 0x9999_9999, 0x1999_9999]) == 0x1999_9999_9999_9999_9999_9999_9999_9999;
    assert P(1) == B32 && P(2) == B64 && P(3) == B96;
  }

  /** The high part of `a * TENTH` is the quotient by ten, and ten times the low part shows the
      remainder above 2^160. */
  lemma TenthDivides(a: nat, c: nat)
    requires a < B128 && 10 * c == B160 + 4
    ensures (a * c) / B160 == a / 10
    ensures 10 * ((a * c) % B160) / B160 == a % 10
  {
    var q, r := a / 10, a % 10;
    var low := 4 * q + r * c;
    assert a * c == (10 * q + r) * c == q * (10 * c) + r * c == q * B160 + low by {
      assert (10 * q + r) * c == 10 * q * c + r * c;
      assert 10 * q * c == q * (10 * c);
      assert q * (B160 + 4) == q * B160 + 4 * q;
    }
    assert r * c <= 9 * c;
    assert 0 <= low < B160;
    DivUnique(a * c, B160, q, low);
    assert 10 * (r * c) == r * (10 * c) == r * B160 + 4 * r;
    DivUnique(10 * low, B160, r, 40 * q + 4 * r);
  }

  /** The product so far: all of the first `i` words of `a`, and word `i` with `j` words. */
  ghost predicate Partial(a: seq<u32>, i: nat, j: nat, r: nat)
    requires i < |a| == 4 && j <= 5
  {
    r == Limbs(a[..i]) * Limbs(TENTH) + a[i] * P(i) * Limbs(TENTH[..j])
  }

  lemma PartialNext(a: seq<u32>, i: nat, j: nat, r: nat)
    requires i < |a| == 4 && j < 5 && Partial(a, i, j, r)
    ensures Partial(a, i, j + 1, r + Term(a[i], TENTH[j], i + j))
    ensures r + Term(a[i], TENTH[j], i + j) < P(9)
  {
    hide P, Limbs, Term;
    var w, more := a[i] * P(i), TENTH[j] * P(j);
    TermIs(a[i], i, TENTH[j], j);
    BigAppend(TENTH, j);
    DistributeLeft(w, Limbs(TENTH[..j]), more);
    PartialFits(a, i, j + 1);
  }

  lemma TermIs(x: nat, i: nat, y: nat, j: nat)
    ensures Term(x, y, i + j) == x * P(i) * (y * P(j))
  {
    hide P;
    PSum(i, j);
    Regroup(x, P(i), y, P(j));
  }

  lemma PartialFits(a: seq<u32>, i: nat, j: nat)
    requires i < |a| == 4 && j <= 5
    ensures Limbs(a[..i]) * Limbs(TENTH) + a[i] * P(i) * Limbs(TENTH[..j]) < P(9)
  {
    hide P, Limbs;
    BigSplit(TENTH, j);
    BigAppend(a, i);
    BigBound(a[..i + 1]);
    PMonotonic(i + 1, 4);
    BigBound(TENTH);
    PSum(4, 5);
    ProductBound(Limbs(a[..i]), a[i] * P(i), Limbs(TENTH[..j]), Limbs(TENTH), P(4), P(5));
  }

  lemma Regroup(x: nat, p: nat, y: nat, q: nat)
    ensures x * y * (p * q) == x * p * (y * q)
  {
    assert x * y * (p * q) == x * (y * (p * q));
    assert y * (p * q) == p * (y * q);
    assert x * (p * (y * q)) == x * p * (y * q);
  }

  lemma DistributeLeft(w: nat, x: nat, y: nat)
    ensures w * (x + y) == w * x + w * y
  {
  }

  lemma ProductBound(x: nat, w: nat, t: nat, c: nat, p: nat, q: nat)
    requires x + w < p && t <= c < q
    ensures x * c + w * t < p * q
  {
    MulLe(w, t, c);
    MulLe(x + w, c, q);
    DistributeLeft(c, x, w);
    MulAtLeast(p - (x + w), q);
    DistributeLeft(q, x + w, p - (x + w));
  }

  lemma MulLe(a: nat, b: nat, c: nat)
    requires b <= c
    ensures a * b <= a * c
  {
    DistributeLeft(a, b, c - b);
  }

  lemma PartialDone(a: seq<u32>, i: nat, r: nat)
    requires i < |a| == 4 && Partial(a, i, 5, r)
    ensures r == Limbs(a[..i + 1]) * Limbs(TENTH)
    ensures i < 3 ==> Partial(a, i + 1, 0, r)
  {
    assert TENTH[..5] == TENTH && TENTH[..0] == [];
    BigAppend(a, i);
    var x, w, c := Limbs(a[..i]), a[i] * P(i), Limbs(TENTH);
    hide P, Limbs;
    assert (x + w) * c == x * c + w * c;
    assert Limbs([]) == 0 by { BigZero(0, []); }
  }

  method TimesTenth(a: array<u32>, r: array<u32>)
    requires a.Length == 4 && r.Length == 9 && a != r && Limbs(r[..]) == 0
    modifies r
    ensures Limbs(r[..]) == Limbs(a[..]) * Limbs(TENTH)
  {
    hide P, Limbs, Term, Partial;
    ghost var words := a[..];
    PartialStart(words);
    for i := 0 to 4
      invariant i < 4 ==> Partial(words, i, 0, Limbs(r[..]))
      invariant i == 4 ==> Limbs(r[..]) == Limbs(words) * Limbs(TENTH)
    {
      for j := 0 to 5
        invariant Partial(words, i, j, Limbs(r[..]))
      {
        PartialNext(words, i, j, Limbs(r[..]));
        MulRound(a[i], TENTH[j], r, i + j);
      }
      PartialDone(words, i, Limbs(r[..]));
      assert words[..4] == words;
    }
  }

  lemma PartialStart(a: seq<u32>)
    requires |a| == 4
    ensures Partial(a, 0, 0, 0)
  {
    assert a[..0] == [] && TENTH[..0] == [];
  }

  method TimesTen(r: array<u32>, m: array<u32>)
    requires r.Length == 9 && m.Length == 6 && r != m && Limbs(m[..]) == 0
    modifies m
    ensures Limbs(m[..]) == 10 * Limbs(r[..5])
  {
    hide P, Limbs;
    ghost var words := r[..5];
    assert words[..0] == [];
    BigZero(0, words[..0]);
    for i := 0 to 5
      invariant Limbs(m[..]) == 10 * Limbs(words[..i])
    {
      BigAppend(words, i);
      TenFits(words, i + 1);
      assert Term(words[i], 10, i) == 10 * (words[i] * P(i));
      MulRound(r[i], 10, m, i);
    }
    assert words[..5] == words;
  }

  lemma TenFits(s: seq<u32>, k: nat)
    requires k <= |s| == 5
    ensures 10 * Limbs(s[..k]) < P(6)
  {
    BigBound(s[..k]);
    PMonotonic(k, 5);
    assert P(6) == B32 * P(5);
    hide P;
  }

  lemma Quotient(a: seq<u32>, r: seq<u32>)
    requires |a| == 4 && |r| == 9 && Limbs(r) == Limbs(a) * Limbs(TENTH)
    ensures Limbs(r[5..]) == Limbs(a) / 10
    ensures Limbs(r[..5]) == (Limbs(a) * Limbs(TENTH)) % B160
  {
    hide P, Limbs;
    TenthIsExact();
    BigBound(a);
    TenthDivides(Limbs(a), Limbs(TENTH));
    BigSplit(r, 5);
    BigBound(r[..5]);
    DivUnique(Limbs(r), B160, Limbs(r[5..]), Limbs(r[..5]));
  }

  lemma Remainder(a: seq<u32>, low: nat, m: seq<u32>)
    requires |a| == 4 && |m| == 6 && low == (Limbs(a) * Limbs(TENTH)) % B160 && Limbs(m) == 10 * low
    ensures m[5] == Limbs(a) % 10
  {
    hide P, Limbs;
    TenthIsExact();
    BigBound(a);
    TenthDivides(Limbs(a), Limbs(TENTH));
    BigSplit(m, 5);
    assert m[5..] == [m[5]];
    BigBound(m[..5]);
    OneWord(m[5]);
    DivUnique(Limbs(m), B160, m[5], Limbs(m[..5]));
  }

  /** Division by ten through a fixed-point reciprocal: exact quotient and remainder for every
      128-bit value. */
  method DivTen128(a: array<u32>) returns (rem: u32)
    requires a.Length == 4
    modifies a
    ensures Limbs(a[..]) == old(Limbs(a[..])) / 10 && rem == old(Limbs(a[..])) % 10
  {
    hide P, Limbs;
    var r := new u32[9](_ => 0);
    var m := new u32[6](_ => 0);
    BigZero(9, r[..]);
    BigZero(6, m[..]);
    TimesTenth(a, r);
    Quotient(a[..], r[..]);
    assert r[..][..5] == r[..5];
    TimesTen(r, m);
    Remainder(a[..], Limbs(r[..5]), m[..]);
    a[0], a[1], a[2], a[3] := r[5], r[6], r[7], r[8];
    assert a[..] == r[..][5..];
    rem := m[5];
  }

  lemma OneWord(x: u32)
    ensures Limbs([x]) == x
  {
  }

  lemma FourLimbs(r0: u32, r1: u32, r2: u32, r3: u32)
    ensures Limbs([r0, r1, r2, r3]) == r0 + B32 * r1 + B64 * r2 + B96 * r3
  {
    BigIsVal([r0, r1, r2, r3]);
  }

  /** Stores a sum given by columns, passing the carries on; false tells that it did not fit. */
  method StoreColumns(n: array<u32>, p0: nat, p1: nat, p2: nat, p3: nat) returns (ok: bool)
    requires n.Length == 4
    modifies n
    ensures var total := p0 + B32 * p1 + B64 * p2 + B96 * p3;
            Limbs(n[..]) == total % B128 && (ok <==> total < B128)
  {
    hide P, Limbs, Val;
    var n1 := p1 + p0 / B32;
    var n2 := p2 + n1 / B32;
    var n3 := p3 + n2 / B32;
    var r0: u32, r1: u32, r2: u32, r3: u32 := p0 % B32, n1 % B32, n2 % B32, n3 % B32;
    Carried(p0 + B32 * p1 + B64 * p2 + B96 * p3, p0, p1, p2, p3);
    FourLimbs(r0, r1, r2, r3);
    n[0], n[1], n[2], n[3] := r0, r1, r2, r3;
    assert n[..] == [r0, r1, r2, r3];
    return n3 / B32 == 0;
  }

  /** Multiplies in place; false tells that the product did not fit. */
  method Mul128(n: array<u32>, m: u32) returns (ok: bool)
    requires n.Length == 4
    modifies n
    ensures Limbs(n[..]) == old(Limbs(n[..])) * m % B128
    ensures ok <==> old(Limbs(n[..])) * m < B128
  {
    hide P, Limbs;
    ProductColumns(n[..], m);
    ok := StoreColumns(n, n[0] * m, n[1] * m, n[2] * m, n[3] * m);
  }

  lemma ProductColumns(a: Words, m: u32)
    ensures Limbs(a) * m == a[0] * m + B32 * (a[1] * m) + B64 * (a[2] * m) + B96 * (a[3] * m)
  {
    hide Limbs;
    BigIsVal(a);
    ScaleWords(a[0], a[1], a[2], a[3], m);
  }

  /** A sum by columns, its carries passed on. */
  lemma Carried(total: nat, p0: nat, p1: nat, p2: nat, p3: nat)
    requires total == p0 + B32 * p1 + B64 * p2 + B96 * p3
    ensures var n1 := p1 + p0 / B32;
            var n2 := p2 + n1 / B32;
            var n3 := p3 + n2 / B32;
            && p0 % B32 + B32 * (n1 % B32) + B64 * (n2 % B32) + B96 * (n3 % B32) == total % B128
            && (n3 / B32 == 0 <==> total < B128)
  {
    Columns(p0, p1, p2, p3);
    var n1 := p1 + p0 / B32;
    var n2 := p2 + n1 / B32;
    var n3 := p3 + n2 / B32;
    DivUnique(total, B128, n3 / B32, p0 % B32 + B32 * (n1 % B32) + B64 * (n2 % B32) + B96 * (n3 % B32));
  }

  lemma ScaleWords(x: nat, y: nat, z: nat, t: nat, m: nat)
    ensures (x + B32 * y + B64 * z + B96 * t) * m == x * m + B32 * (y * m) + B64 * (z * m) + B96 * (t * m)
  {
  }

  /** Column sums with their carries. */
  lemma Columns(p0: nat, p1: nat, p2: nat, p3: nat)
    ensures var n1 := p1 + p0 / B32;
            var n2 := p2 + n1 / B32;
            var n3 := p3 + n2 / B32;
            p0 + B32 * p1 + B64 * p2 + B96 * p3
            == n3 / B32 * B128 + (p0 % B32 + B32 * (n1 % B32) + B64 * (n2 % B32) + B96 * (n3 % B32))
  {
  }

  method Add128(n: array<u32>, a: u32) returns (ok: bool)
    requires n.Length == 4
    modifies n
    ensures Limbs(n[..]) == (old(Limbs(n[..])) + a) % B128
    ensures ok <==> old(Limbs(n[..])) + a < B128
  {
    hide P, Limbs;
    BigIsVal(n[..]);
    ok := StoreColumns(n, n[0] + a, n[1], n[2], n[3]);
  }
}
