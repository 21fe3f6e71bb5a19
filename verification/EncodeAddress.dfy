/** What encoded addresses match, on either family, and exactly when the encoding is right. */
module EncodeAddress {
  import opened Words
  import opened Bits
  import opened Prefix
  import opened Encode
  import Addr
  import Cube

  lemma AllOnesMask(x: nat, y: nat)
    requires x < B128 && y < B128
    ensures MaskedEq(x, y, B128 - 1) <==> x == y
  {
    PowOne();
    MaskedTop(x, y, 128);
    TopAll(x);
    TopAll(y);
  }

  lemma CoverMatches(a: Addr.Addr, bits: nat, ip: Words, mask: Words, x: nat)
    requires bits <= 128 && x < B128
    requires Top(Val(a.lo), bits) == Top(Val(a.hi), bits)
    requires Val(ip) == Val(a.lo) - Low(Val(a.lo), bits) && Val(mask) == B128 - Pow2(128 - bits)
    ensures MaskedEq(x, Val(ip), Val(mask)) <==> Top(x, bits) == Top(Val(a.lo), bits)
  {
    hide Top, Low, Pow2, And;
    ValBounds(ip);
    BaseTop(Val(a.lo), bits);
    MaskedTop(x, Val(ip), bits);
  }

  /** On 128-bit addresses the encoding never loses one. */
  lemma Sound128(a: Addr.Addr, bits: nat, whole: bool, ip: Words, mask: Words, active: bool, invert: bool, x: nat)
    requires AddrEncoding(a, bits, whole, ip, mask, active, invert) && x < B128 && a.Has(x)
    ensures InMasked(active, invert, ip, mask, x)
  {
    hide Top, Low, Pow2, And;
    if a.IsFull() {
    } else if Holed(a) {
      ValOfConstants();
      ValBounds(a.excl);
      AllOnesMask(x, Val(a.excl));
    } else {
      CoverMatches(a, bits, ip, mask, x);
      Between(Val(a.lo), x, Val(a.hi), bits);
    }
  }

  /** The one shape that is encoded too widely: exactly `::ffff:0:0/96` with a hole. */
  predicate Clean128(a: Addr.Addr) {
    !(a.hasExcl && IsBlock(a))
  }

  lemma Exact128(a: Addr.Addr, bits: nat, whole: bool, ip: Words, mask: Words, active: bool, invert: bool, x: nat)
    requires AddrEncoding(a, bits, whole, ip, mask, active, invert) && x < B128
    requires whole && Clean128(a) && InMasked(active, invert, ip, mask, x)
    ensures a.Has(x)
  {
    hide Top, Low, Pow2, And;
    ValOfConstants();
    if a.IsFull() {
    } else if Holed(a) {
      ValBounds(a.excl);
      AllOnesMask(x, Val(a.excl));
    } else {
      CoverMatches(a, bits, ip, mask, x);
      if bits == 0 {
        TopAll(x);
        ValBounds(a.lo);
        TopAll(Val(a.lo));
      }
      WithinExact(Val(a.lo), x, Val(a.hi), bits);
    }
  }

  /** A complete encoding is right on all 128-bit addresses exactly when the shape is clean. */
  lemma Exact128Iff(a: Addr.Addr, bits: nat, whole: bool, ip: Words, mask: Words, active: bool, invert: bool)
    requires AddrEncoding(a, bits, whole, ip, mask, active, invert) && whole
    ensures Clean128(a) <==> forall x :: 0 <= x < B128 ==> (InMasked(active, invert, ip, mask, x) <==> a.Has(x))
  {
    hide Top, Low, Pow2, And, InMasked;
    forall x | 0 <= x < B128 && a.Has(x) ensures InMasked(active, invert, ip, mask, x) {
      Sound128(a, bits, whole, ip, mask, active, invert, x);
    }
    if Clean128(a) {
      forall x | 0 <= x < B128 && InMasked(active, invert, ip, mask, x) ensures a.Has(x) {
        Exact128(a, bits, whole, ip, mask, active, invert, x);
      }
    } else {
      var x := if Val(a.excl) == 0 then 1 else 0;
      BlockWithHole(a, bits, whole, ip, mask, active, invert, x);
      assert InMasked(active, invert, ip, mask, x) && !a.Has(x);
    }
  }

  lemma BlockWithHole(a: Addr.Addr, bits: nat, whole: bool, ip: Words, mask: Words, active: bool, invert: bool, x: nat)
    requires AddrEncoding(a, bits, whole, ip, mask, active, invert) && !Clean128(a)
    requires x < Val(MAPPED_LO) && x != Val(a.excl)
    ensures InMasked(active, invert, ip, mask, x) && !a.Has(x)
  {
    hide Top, Low, Pow2, And;
    ValOfConstants();
    ValBounds(a.excl);
    AllOnesMask(x, Val(a.excl));
  }

  /** The number of an IPv4 address `x`, read as `::ffff:x`. */
  function Mapped(x: u32): nat { 0xFFFF_0000_0000 + x }

  lemma MappedVal(x: u32)
    ensures Val(MappedWords(x)) == Mapped(x)
  {
  }

  /** The IPv4 mask kept from a 128-bit mask: nothing when the prefix ends above the last word. */
  function Mask4(mask: Words): u32 {
    if mask[1] == 0xFFFF_FFFF then mask[0] else 0
  }

  predicate InMasked4(active: bool, invert: bool, ip: Words, mask: Words, x: u32) {
    active ==> MaskedEq(x, ip[0], Mask4(mask)) != invert
  }

  lemma MaskShape(mask: Words, bits: nat)
    requires bits <= 128 && Val(mask) == B128 - Pow2(128 - bits)
    ensures bits >= 96 ==> Pow2(128 - bits) <= B32 && Mask4(mask) == B32 - Pow2(128 - bits)
    ensures bits < 96 ==> Mask4(mask) == 0
  {
    hide Pow2;
    Pow2Values();
    if bits >= 96 {
      Pow2Monotonic(128 - bits, 32);
      PowPositive(128 - bits);
      var w: Words := [B32 - Pow2(128 - bits), 0xFFFF_FFFF, 0xFFFF_FFFF, 0xFFFF_FFFF];
      assert Val(w) == Val(mask);
      ValInjective(w, mask);
    } else {
      Pow2Sum(33, 95 - bits);
      Pow2Sum(1, 32);
      Pow2One();
      OddWord(mask, Pow2(95 - bits));
    }
  }

  lemma PowPositive(n: nat)
    ensures Pow2(n) >= 1
  {
  }

  lemma OddWord(mask: Words, t: nat)
    requires Val(mask) == B128 - 2 * B32 * t
    ensures mask[1] != 0xFFFF_FFFF
  {
  }

  lemma TopWords(h: nat, l: u32, k: nat)
    requires k <= 32
    ensures (h * B32 + l) / Pow2(k) == h * Pow2(32 - k) + l / Pow2(k)
    ensures l / Pow2(k) < Pow2(32 - k)
  {
    hide Pow2;
    Pow2Values();
    Pow2Sum(32 - k, k);
    PowPositive(k);
    var p, q := Pow2(k), Pow2(32 - k);
    HighLow(h, l, p, q);
  }

  lemma HighLow(h: nat, l: nat, p: nat, q: nat)
    requires p > 0 && l < q * p
    ensures (h * (q * p) + l) / p == h * q + l / p && l / p < q
  {
    assert h * (q * p) == h * q * p;
    DivUnique(h * q * p + l, p, h * q + l / p, l % p);
    if l / p >= q {
      MulAtLeast(l / p - q + 1, p);
      assert false;
    }
  }

  function High(w: Words): nat { w[1] + B32 * w[2] + B64 * w[3] }

  lemma TopOfParts(h: nat, l: u32, bits: nat)
    requires 96 <= bits <= 128
    ensures Top(h * B32 + l, bits) == h * Pow2(bits - 96) + l / Pow2(128 - bits)
    ensures l / Pow2(128 - bits) < Pow2(bits - 96)
  {
    TopWords(h, l, 128 - bits);
  }

  /** With the last word reached, prefixes agree when the words above and the word's top do. */
  lemma TopSplit(x: u32, y: Words, bits: nat)
    requires 96 <= bits <= 128
    ensures Top(Mapped(x), bits) == Top(Val(y), bits) <==>
              High(y) == 0xFFFF && x / Pow2(128 - bits) == y[0] / Pow2(128 - bits)
  {
    hide Pow2, Top;
    TopOfParts(0xFFFF, x, bits);
    TopOfParts(High(y), y[0], bits);
    PartsOfVal(x, y);
    DigitsEqual(0xFFFF, x / Pow2(128 - bits), High(y), y[0] / Pow2(128 - bits), Pow2(bits - 96));
  }

  lemma PartsOfVal(x: u32, y: Words)
    ensures Mapped(x) == 0xFFFF * B32 + x && Val(y) == High(y) * B32 + y[0]
  {
  }

  lemma DigitsEqual(h: nat, l: nat, h': nat, l': nat, q: nat)
    requires l < q && l' < q
    ensures h * q + l == h' * q + l' <==> h == h' && l == l'
  {
    DivUnique(h * q + l, q, h, l);
    DivUnique(h' * q + l', q, h', l');
  }

  lemma IsMappedHigh(w: Words)
    ensures IsMapped(w) <==> High(w) == 0xFFFF
  {
  }

  /** The 32-bit comparison of a covering prefix, in terms of 128-bit prefixes. */
  lemma Cover4(a: Addr.Addr, bits: nat, ip: Words, mask: Words, x: u32)
    requires bits <= 128 && Top(Val(a.lo), bits) == Top(Val(a.hi), bits)
    requires Val(ip) == Val(a.lo) - Low(Val(a.lo), bits) && Val(mask) == B128 - Pow2(128 - bits)
    ensures bits >= 96 && IsMapped(ip) ==> (MaskedEq(x, ip[0], Mask4(mask)) <==>
              Top(Mapped(x), bits) == Top(Val(a.lo), bits))
    ensures bits >= 96 && !IsMapped(ip) ==> Top(Mapped(x), bits) != Top(Val(a.lo), bits)
    ensures bits < 96 ==> MaskedEq(x, ip[0], Mask4(mask))
  {
    hide Top, Low, Pow2;
    MaskShape(mask, bits);
    if bits >= 96 {
      hide And;
      BaseTop(Val(a.lo), bits);
      TopSplit(x, ip, bits);
      IsMappedHigh(ip);
      Pow2Values();
      MaskedEqPrefix(x, ip[0], 32, 128 - bits);
    } else {
      AndNothing(x);
      AndNothing(ip[0]);
    }
  }

  lemma AndNothing(x: nat)
    ensures And(x, 0) == 0
  {
  }

  /** The encodings that would drop IPv4 packets: a hole that is no IPv4 address. */
  predicate Sound4(a: Addr.Addr) {
    Holed(a) ==> IsMapped(a.excl)
  }

  predicate ContainsBlock(a: Addr.Addr) {
    Val(a.lo) <= Val(MAPPED_LO) && Val(MAPPED_HI) <= Val(a.hi)
  }

  predicate InsideBlock(a: Addr.Addr) {
    Val(MAPPED_LO) <= Val(a.lo) && Val(a.hi) <= Val(MAPPED_HI)
  }

  predicate Clean4(a: Addr.Addr) {
    (a.hasExcl ==> IsMapped(a.excl)) && (ContainsBlock(a) || InsideBlock(a))
  }

  lemma HoleMatch4(a: Addr.Addr, bits: nat, whole: bool, ip: Words, mask: Words, active: bool, invert: bool, x: u32)
    requires AddrEncoding(a, bits, whole, ip, mask, active, invert) && Holed(a)
    ensures InMasked4(active, invert, ip, mask, x) <==> x != a.excl[0]
    ensures a.Has(Mapped(x)) <==> !(IsMapped(a.excl) && x == a.excl[0])
  {
    hide Top, Low, Pow2, And;
    ValOfConstants();
    Pow2Values();
    AndOnes(x, 32);
    AndOnes(a.excl[0], 32);
    MappedVal(x);
    ValInjective(MappedWords(x), a.excl);
  }

  lemma Sound4At(a: Addr.Addr, bits: nat, whole: bool, ip: Words, mask: Words, active: bool, invert: bool, x: u32)
    requires AddrEncoding(a, bits, whole, ip, mask, active, invert) && Sound4(a) && a.Has(Mapped(x))
    ensures InMasked4(active, invert, ip, mask, x)
  {
    hide Top, Low, Pow2, And;
    if a.IsFull() {
    } else if Holed(a) {
      HoleMatch4(a, bits, whole, ip, mask, active, invert, x);
    } else {
      Between(Val(a.lo), Mapped(x), Val(a.hi), bits);
      Cover4(a, bits, ip, mask, x);
    }
  }

  lemma Exact4At(a: Addr.Addr, bits: nat, whole: bool, ip: Words, mask: Words, active: bool, invert: bool, x: u32)
    requires AddrEncoding(a, bits, whole, ip, mask, active, invert) && whole && Clean4(a)
    requires InMasked4(active, invert, ip, mask, x)
    ensures a.Has(Mapped(x))
  {
    hide Top, Low, Pow2, And;
    ValOfConstants();
    if a.IsFull() {
    } else if Holed(a) {
      HoleMatch4(a, bits, whole, ip, mask, active, invert, x);
    } else if ContainsBlock(a) {
    } else {
      BaseIsLo(a, bits, ip);
      BlockPrefix(a, bits);
      WithinExact(Val(a.lo), Val(a.lo), Val(a.hi), bits);
      MappedIsInterval(a.lo);
      Cover4(a, bits, ip, mask, x);
      WithinExact(Val(a.lo), Mapped(x), Val(a.hi), bits);
    }
  }

  lemma BaseIsLo(a: Addr.Addr, bits: nat, ip: Words)
    requires bits <= 128 && Val(ip) == Val(a.lo) - Low(Val(a.lo), bits) && Low(Val(a.lo), bits) == 0
    ensures ip == a.lo
  {
    ValInjective(ip, a.lo);
  }

  /** An exact prefix inside the block is at least 96 bits long. */
  lemma BlockPrefix(a: Addr.Addr, bits: nat)
    requires bits <= 128 && InsideBlock(a) && Low(Val(a.lo), bits) == 0 && Low(Val(a.hi), bits) == Pow2(128 - bits) - 1
    requires Top(Val(a.lo), bits) == Top(Val(a.hi), bits)
    ensures bits >= 96
  {
    hide Top, Low, Pow2;
    TopLow(Val(a.lo), bits);
    TopLow(Val(a.hi), bits);
    ValOfConstants();
    if bits < 96 {
      Pow2Values();
      Pow2Monotonic(33, 128 - bits);
      Pow2Sum(1, 32);
      Pow2One();
    }
  }

  /** The IPv4 encoding keeps every address of the interval exactly when `Sound4` holds. */
  lemma Sound4Iff(a: Addr.Addr, bits: nat, whole: bool, ip: Words, mask: Words, active: bool, invert: bool)
    requires AddrEncoding(a, bits, whole, ip, mask, active, invert)
    ensures Sound4(a) <==> forall x: u32 :: a.Has(Mapped(x)) ==> InMasked4(active, invert, ip, mask, x)
  {
    hide Top, Low, Pow2, And, InMasked4;
    if Sound4(a) {
      forall x: u32 | a.Has(Mapped(x)) ensures InMasked4(active, invert, ip, mask, x) {
        Sound4At(a, bits, whole, ip, mask, active, invert, x);
      }
    } else {
      HoleMatch4(a, bits, whole, ip, mask, active, invert, a.excl[0]);
      assert a.Has(Mapped(a.excl[0]));
    }
  }

  /** A complete IPv4 encoding is right exactly when `Clean4` holds. */
  lemma Exact4Iff(a: Addr.Addr, bits: nat, whole: bool, ip: Words, mask: Words, active: bool, invert: bool)
    requires AddrEncoding(a, bits, whole, ip, mask, active, invert) && whole
    ensures Clean4(a) <==> forall x: u32 :: InMasked4(active, invert, ip, mask, x) <==> a.Has(Mapped(x))
  {
    hide Top, Low, Pow2, And, InMasked4;
    if Clean4(a) {
      forall x: u32 ensures InMasked4(active, invert, ip, mask, x) <==> a.Has(Mapped(x)) {
        if a.Has(Mapped(x)) {
          Sound4At(a, bits, whole, ip, mask, active, invert, x);
        } else if InMasked4(active, invert, ip, mask, x) {
          Exact4At(a, bits, whole, ip, mask, active, invert, x);
        }
      }
    } else {
      var x := Unclean4(a, bits, whole, ip, mask, active, invert);
      assert InMasked4(active, invert, ip, mask, x) != a.Has(Mapped(x));
    }
  }

  lemma Unclean4(a: Addr.Addr, bits: nat, whole: bool, ip: Words, mask: Words, active: bool, invert: bool)
    returns (x: u32)
    requires AddrEncoding(a, bits, whole, ip, mask, active, invert) && whole && !Clean4(a)
    ensures InMasked4(active, invert, ip, mask, x) != a.Has(Mapped(x))
  {
    hide Top, Low, Pow2, And;
    ValOfConstants();
    if a.hasExcl {
      x := a.excl[0];
      HoleMatch4(a, bits, whole, ip, mask, active, invert, x);
    } else if bits >= 96 {
      BaseIsLo(a, bits, ip);
      x := ip[0];
      Cover4(a, bits, ip, mask, x);
      if IsMapped(ip) {
        PrefixStaysMapped(a, bits);
        assert false;
      }
      if a.Has(Mapped(x)) {
        Between(Val(a.lo), Mapped(x), Val(a.hi), bits);
        assert false;
      }
    } else {
      x := if Val(MAPPED_LO) < Val(a.lo) then 0 else 0xFFFF_FFFF;
      Cover4(a, bits, ip, mask, x);
    }
  }

  lemma PrefixStaysMapped(a: Addr.Addr, bits: nat)
    requires 96 <= bits <= 128 && Top(Val(a.lo), bits) == Top(Val(a.hi), bits) && IsMapped(a.lo)
    ensures InsideBlock(a)
  {
    hide Top, Pow2;
    MappedVal(a.lo[0]);
    assert a.lo == MappedWords(a.lo[0]);
    TopSplit(a.lo[0], a.hi, bits);
    IsMappedHigh(a.hi);
    MappedIsInterval(a.lo);
    MappedIsInterval(a.hi);
  }

  /** `a` is all of a prefix of `bits` bits. */
  predicate IsPrefix(a: Addr.Addr, bits: nat) {
    && bits <= 128 && !a.hasExcl
    && Top(Val(a.lo), bits) == Top(Val(a.hi), bits)
    && Low(Val(a.lo), bits) == 0 && Low(Val(a.hi), bits) == Pow2(128 - bits) - 1
  }

  /** The intervals whose encoding claims to be complete. */
  predicate Claimed(a: Addr.Addr) {
    a.IsFull() || Holed(a) || exists bits :: 0 <= bits <= 128 && IsPrefix(a, bits)
  }

  lemma WholeIsClaimed(a: Addr.Addr, bits: nat, whole: bool, ip: Words, mask: Words, active: bool, invert: bool)
    requires AddrEncoding(a, bits, whole, ip, mask, active, invert)
    ensures whole <==> Claimed(a)
  {
    hide Top, Low, Pow2, Val;
    if !a.IsFull() && !Holed(a) {
      if whole {
        assert IsPrefix(a, bits);
      } else if exists n :: 0 <= n <= 128 && IsPrefix(a, n) {
        var n :| 0 <= n <= 128 && IsPrefix(a, n);
        LongestPrefix(a, n, bits);
      }
    }
  }

  /** The longest prefix the ends of a whole prefix share is that prefix. */
  lemma LongestPrefix(a: Addr.Addr, n: nat, bits: nat)
    requires IsPrefix(a, n) && bits <= 128
    requires Top(Val(a.lo), bits) == Top(Val(a.hi), bits)
    requires bits < 128 ==> Top(Val(a.lo), bits + 1) != Top(Val(a.hi), bits + 1)
    ensures bits == n
  {
    hide Top, Low, Pow2, Val;
    if bits < n {
      ShorterPrefix(Val(a.lo), Val(a.hi), bits + 1, n);
    } else if n < bits {
      ShorterPrefix(Val(a.lo), Val(a.hi), n + 1, bits);
      PrefixForks(a, n);
    }
  }

  lemma ShorterPrefix(x: nat, y: nat, k: nat, n: nat)
    requires k <= n <= 128 && Top(x, n) == Top(y, n)
    ensures Top(x, k) == Top(y, k)
    decreases n - k
  {
    hide Top, Low, Pow2;
    if k < n {
      ShorterPrefix(x, y, k + 1, n);
      TopNext(x, k);
      TopNext(y, k);
      BitWeight(x, 127 - k);
      BitWeight(y, 127 - k);
    }
  }

  /** The ends of a whole prefix differ in the next bit. */
  lemma PrefixForks(a: Addr.Addr, n: nat)
    requires IsPrefix(a, n) && n < 128
    ensures Top(Val(a.lo), n + 1) != Top(Val(a.hi), n + 1)
  {
    hide Top, Low, Pow2, Val, Bit, Weight;
    TopNext(Val(a.lo), n);
    TopNext(Val(a.hi), n);
    BitWeight(Val(a.lo), 127 - n);
    BitWeight(Val(a.hi), 127 - n);
    TopLow(Val(a.lo), n + 1);
    TopLow(Val(a.hi), n + 1);
  }

  /** Whatever IPv4 literals make of an address: if its encoding claims to be complete, it is,
      because a prefix has a power of two for its length. */
  lemma ShapedIsClean4(a: Addr.Addr)
    requires Cube.Shape4(a) && Claimed(a)
    ensures Clean4(a)
  {
    hide Top, Low, Pow2, Val, IsMapped;
    ValOfConstants();
    if !a.IsFull() && !Holed(a) {
      var bits :| 0 <= bits <= 128 && IsPrefix(a, bits);
      PrefixLength(a, bits);
      if Val(a.lo) == 0 && Val(a.hi) != B128 - 1 {
        NearPower(128 - bits);
      } else if Val(a.lo) != 0 && Val(a.hi) == B128 - 1 {
        NotAlmostAll(128 - bits, Val(a.lo));
      }
    }
  }

  lemma PrefixLength(a: Addr.Addr, bits: nat)
    requires IsPrefix(a, bits)
    ensures Val(a.hi) + 1 - Val(a.lo) == Pow2(128 - bits) >= 1
  {
    hide Top, Low, Pow2, Val;
    TopLow(Val(a.lo), bits);
    TopLow(Val(a.hi), bits);
  }

  lemma NearPower(n: nat)
    requires 0xFFFF_0000_0000 <= Pow2(n) <= 0x1_0000_0000_0000
    ensures Pow2(n) == 0x1_0000_0000_0000
  {
    hide Pow2;
    Pow2Values();
    Pow2Sum(16, 32);
    Pow2Sum(1, 47);
    Pow2One();
    if n <= 47 {
      Pow2Monotonic(n, 47);
    } else {
      Pow2Monotonic(48, n);
    }
  }

  lemma NotAlmostAll(n: nat, lo: nat)
    requires n <= 128 && 0 < lo <= 0x1_0000_0000_0000
    ensures B128 - lo != Pow2(n)
  {
    hide Pow2;
    Pow2Values();
    Pow2Sum(1, 127);
    Pow2One();
    if n <= 127 {
      Pow2Monotonic(n, 127);
    }
  }

  /** An encoded address, and what it matches on either family. */
  datatype AddrCode = AddrCode(bits: nat, whole: bool, ip: Words, mask: Words, active: bool, invert: bool) {
    predicate Has4(x: u32) { InMasked4(active, invert, ip, mask, x) }
    predicate Has6(x: nat) { InMasked(active, invert, ip, mask, x) }
  }

  ghost predicate Encoded(a: Addr.Addr, s: AddrCode) {
    AddrEncoding(a, s.bits, s.whole, s.ip, s.mask, s.active, s.invert)
  }

  const DB8_1: Words := [1, 0, 0, 0x2001_0DB8]
  const DB8_5: Words := [5, 0, 0, 0x2001_0DB8]

  /** An IPv4 rule for "not 2001:db8::5" misses 0.0.0.5. */
  lemma ForeignHole(s: AddrCode)
    requires Encoded(Addr.FULL.(excl := DB8_5, hasExcl := true), s)
    ensures Addr.FULL.(excl := DB8_5, hasExcl := true).Has(Mapped(5)) && !s.Has4(5)
  {
    HoleMatch4(Addr.FULL.(excl := DB8_5, hasExcl := true), s.bits, s.whole, s.ip, s.mask, s.active, s.invert, 5);
  }

  /** An IPv4 rule for 2001:db8::1 matches 0.0.0.1, and claims to be complete. */
  lemma ForeignPrefix(s: AddrCode)
    requires Encoded(Addr.Addr(DB8_1, DB8_1, ZEROES, false), s)
    ensures s.whole && s.Has4(1) && !Addr.Addr(DB8_1, DB8_1, ZEROES, false).Has(Mapped(1))
  {
    hide Top, Low, Pow2, And;
    ValOfConstants();
    ValBounds(DB8_1);
    TopAll(Val(DB8_1));
    PowOne();
    ValInjective(s.mask, ONES);
    ValInjective(s.ip, DB8_1);
    assert s.bits == 128;
    assert MaskedEq(1, 1, 0xFFFF_FFFF);
  }

  /** A rule for `::ffff:0:0/96` without `::ffff:0:5` matches `::1`, and claims to be complete. */
  lemma HoledBlock(s: AddrCode)
    requires Encoded(Addr.Addr(MAPPED_LO, MAPPED_HI, MappedWords(5), true), s)
    ensures s.whole && s.Has6(1) && !Addr.Addr(MAPPED_LO, MAPPED_HI, MappedWords(5), true).Has(1)
  {
    ValOfConstants();
    MappedVal(5);
    var a := Addr.Addr(MAPPED_LO, MAPPED_HI, MappedWords(5), true);
    BlockWithHole(a, s.bits, s.whole, s.ip, s.mask, s.active, s.invert, 1);
  }
}
