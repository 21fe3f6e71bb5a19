/** Encoding cubes into kernel rules. */
module Encode {
  import opened Words
  import opened Cube
  import opened Bits
  import opened Prefix
  import opened Rules
  import Range
  import Addr

  /** Encodes a range of at most 16 bits.  `whole` is false when holes had to be dropped. */
  method EncodeRange(r: Range.Range, max: u32) returns (whole: bool, s: Slot)
    requires r.Valid(max) && max <= 65535
    ensures forall v :: 0 <= v <= max && r.Has(v) ==> s.Accepts(v)
    ensures whole ==> forall v :: 0 <= v <= max && s.Accepts(v) ==> r.Has(v)
    ensures whole <==> FitsRange(r, max)
    ensures s.start <= max && s.end <= max
    ensures s.invert ==> |r.excl| == 1 && s.start == s.end == r.excl[0]
    ensures s.active && !s.invert ==> s.start == r.lo && s.end == r.hi && !(r.lo == 0 && r.hi == max)
    ensures !s.active ==> r.lo == 0 && r.hi == max && |r.excl| != 1
    ensures forall v :: 0 <= v <= max ==> (s.Accepts(v) <==> HullRange(r, max, v))
  {
    if r.IsFull(max) {
      return true, Slot(false, false, 0, 0);
    }
    if |r.excl| == 0 {
      return true, Slot(true, false, r.lo, r.hi);
    }
    if |r.excl| == 1 && r.lo == 0 && r.hi == max {
      return true, Slot(true, true, r.excl[0], r.excl[0]);
    }
    return false, Slot(r.lo != 0 || r.hi != max, false, r.lo, r.hi);
  }

  /** A single-valued rule field: only an interval of one value, or its complement, fits. */
  method EncodeValue(r: Range.Range) returns (whole: bool, s: Slot)
    requires r.Valid(255)
    ensures forall v :: 0 <= v <= 255 && r.Has(v) ==> s.Accepts(v)
    ensures whole ==> forall v :: 0 <= v <= 255 && s.Accepts(v) ==> r.Has(v)
    ensures whole <==> FitsValue(r)
    ensures s.start == s.end <= 255
    ensures forall v :: 0 <= v <= 255 ==> (s.Accepts(v) <==> HullValue(r, v))
  {
    whole, s := EncodeRange(r, 255);
    assert r.excl != [] ==> r.lo < r.excl[0] < r.hi;
    if !s.active {
      s := Slot(false, false, 0, 0);
    } else if s.start != s.end {
      whole, s := false, Slot(false, false, 0, 0);
    }
  }

  /** The part of a cube both families encode alike. */
  predicate InCommon(c: Cube, a: Attrs) {
    && (c.dir == 0 || a.dir == c.dir)
    && (c.loopback < 0 || a.loopback == c.loopback)
    && c.proto.Has(a.proto) && c.ttl.Has(a.ttl)
    && c.sport.Has(a.sport) && c.dport.Has(a.dport)
    && a.tcpFlags * c.tcpMask == c.tcpFlags
  }

  /** An encoded condition: whether it is active, inverted, and its bounds. */
  datatype Slot = Slot(active: bool, invert: bool, start: u16, end: u16) {
    predicate Accepts(v: nat) {
      active ==> (start <= v <= end) != invert
    }
  }

  /** Which bits of the match mask an encoded cube sets. */
  predicate ActiveBit(m: Match, c: Cube, p: Slot, s: Slot, d: Slot, t: Slot) {
    match m
    case ENABLED => true
    case PROTO => p.active
    case SRC_PORT => s.active
    case DST_PORT => d.active
    case TTL => t.active
    case DIRECTION => c.dir != 0
    case LOOPBACK_BIT => c.loopback >= 0
    case TCP_FLAGS => c.tcpMask != {}
    case _ => false
  }

  predicate InvertedBit(m: Match, p: Slot, s: Slot, d: Slot, t: Slot) {
    match m
    case PROTO => p.active && p.invert
    case SRC_PORT => s.active && s.invert
    case DST_PORT => d.active && d.invert
    case TTL => t.active && t.invert
    case _ => false
  }

  /** The rule for four slots and the plain conditions of a cube. */
  function Assemble(c: Cube, p: Slot, s: Slot, d: Slot, t: Slot): Common
    requires p.start <= 255 && t.start <= 255
  {
    Common((set m: Match | ActiveBit(m, c, p, s, d, t)), (set m: Match | InvertedBit(m, p, s, d, t)),
           p.start, c.dir, c.loopback, t.start, c.tcpFlags, c.tcpMask, s.start, s.end, d.start, d.end)
  }

  predicate NoAddressOrAction(r: Common) {
    && SRC_IP !in r.active && DST_IP !in r.active && SNIFF !in r.active && DROP !in r.active
    && SRC_IP !in r.inverted && DST_IP !in r.inverted
  }

  lemma AssembleMatches(c: Cube, p: Slot, s: Slot, d: Slot, t: Slot, a: Attrs)
    requires p.start == p.end <= 255 && t.start == t.end <= 255 && c.tcpFlags <= c.tcpMask
    ensures MatchesCommon(Assemble(c, p, s, d, t), a) <==>
            && p.Accepts(a.proto) && s.Accepts(a.sport) && d.Accepts(a.dport) && t.Accepts(a.ttl)
            && (c.dir == 0 || a.dir == c.dir) && (c.loopback < 0 || a.loopback == c.loopback)
            && a.tcpFlags * c.tcpMask == c.tcpFlags
  {
    assert c.tcpMask == {} ==> c.tcpFlags == {} && a.tcpFlags * c.tcpMask == {};
  }

  /** The ranges a rule's fields can hold. */
  predicate FitsRange(r: Range.Range, max: u32) {
    r.excl == [] || (|r.excl| == 1 && r.lo == 0 && r.hi == max)
  }

  predicate FitsValue(r: Range.Range) {
    FitsRange(r, 255) && (r.excl == [] ==> r.IsFull(255) || r.lo == r.hi)
  }

  predicate FitsCommon(c: Cube) {
    FitsValue(c.proto) && FitsValue(c.ttl) && FitsRange(c.sport, 65535) && FitsRange(c.dport, 65535)
  }

  /** What a rule's fields make of a range: holes that do not fit are dropped, and of a single-valued field's range
      nothing is left unless it fits. */
  predicate HullRange(r: Range.Range, max: u32, v: int) {
    if FitsRange(r, max) then r.Has(v) else r.lo <= v <= r.hi
  }

  predicate HullValue(r: Range.Range, v: int) {
    FitsValue(r) ==> r.Has(v)
  }

  predicate HullCommon(c: Cube, a: Attrs) {
    && (c.dir == 0 || a.dir == c.dir)
    && (c.loopback < 0 || a.loopback == c.loopback)
    && HullValue(c.proto, a.proto) && HullValue(c.ttl, a.ttl)
    && HullRange(c.sport, 65535, a.sport) && HullRange(c.dport, 65535, a.dport)
    && a.tcpFlags * c.tcpMask == c.tcpFlags
  }

  method EncodeCommon(c: Cube) returns (whole: bool, r: Common)
    requires c.Valid()
    ensures Armed(r) && NoAddressOrAction(r)
    ensures forall a: Attrs :: InCommon(c, a) ==> MatchesCommon(r, a)
    ensures whole ==> forall a: Attrs :: MatchesCommon(r, a) ==> InCommon(c, a)
    ensures whole <==> FitsCommon(c)
    ensures forall a: Attrs :: MatchesCommon(r, a) <==> HullCommon(c, a)
  {
    assert c.Get(Proto).Valid(255) && c.Get(Ttl).Valid(255);
    assert c.Get(Sport).Valid(65535) && c.Get(Dport).Valid(65535);
    var okP, p := EncodeValue(c.proto);
    var okS, s := EncodeRange(c.sport, 65535);
    var okD, d := EncodeRange(c.dport, 65535);
    var okT, t := EncodeValue(c.ttl);
    r := Assemble(c, p, s, d, t);
    whole := okP && okS && okD && okT;
    forall a: Attrs {
      AssembleMatches(c, p, s, d, t, a);
    }
    hide Assemble, MatchesCommon, FitsRange, FitsValue, HullRange, HullValue, Range.Range.Has, Slot.Accepts;
  }

  /** The addresses a masked comparison accepts. */
  predicate InMasked(active: bool, invert: bool, ip: Words, mask: Words, x: nat) {
    active ==> MaskedEq(x, Val(ip), Val(mask)) != invert
  }

  predicate IsBlock(a: Addr.Addr) { a.Spans(MAPPED_LO, MAPPED_HI) }

  /** An interval with a hole that is encoded as "everything but the hole". */
  predicate Holed(a: Addr.Addr) {
    a.hasExcl && (a.Spans(ZEROES, ONES) || IsBlock(a))
  }

  /** The three outcomes of encoding an address; `bits` is the length of the longest covering prefix. */
  ghost predicate AddrEncoding(a: Addr.Addr, bits: nat, whole: bool, ip: Words, mask: Words, active: bool,
                               invert: bool) {
    && bits <= 128
    && (invert ==> active)
    && (a.IsFull() ==> whole && !active)
    && (!a.IsFull() && Holed(a) ==> whole && active && invert && ip == a.excl && mask == ONES)
    && (!a.IsFull() && !Holed(a) ==>
          && !invert && active == (bits > 0)
          && Top(Val(a.lo), bits) == Top(Val(a.hi), bits)
          && (bits < 128 ==> Top(Val(a.lo), bits + 1) != Top(Val(a.hi), bits + 1))
          && Val(ip) == Val(a.lo) - Low(Val(a.lo), bits)
          && Val(mask) == B128 - Pow2(128 - bits)
          && whole == (!a.hasExcl && Low(Val(a.lo), bits) == 0 && Low(Val(a.hi), bits) == Pow2(128 - bits) - 1))
  }

  /** Encodes an address constraint as an address and a mask. */
  method EncodeAddr(a: Addr.Addr)
    returns (whole: bool, ip: Words, mask: Words, active: bool, invert: bool, ghost bits: nat)
    ensures AddrEncoding(a, bits, whole, ip, mask, active, invert)
  {
    hide Pow2, Top, Low;
    ip, mask, active, invert, bits := ZEROES, ZEROES, false, false, 0;
    var loZero := Cmp128(a.lo, ZEROES);
    var hiOnes := Cmp128(a.hi, ONES);
    if !a.hasExcl && loZero == 0 && hiOnes == 0 {
      return true, ip, mask, false, false, bits;
    }
    if a.hasExcl {
      var loBlock := Cmp128(a.lo, MAPPED_LO);
      var hiBlock := Cmp128(a.hi, MAPPED_HI);
      if (loZero == 0 && hiOnes == 0) || (loBlock == 0 && hiBlock == 0) {
        return true, a.excl, ONES, true, true, bits;
      }
    }
    var n, exactPrefix;
    n, ip, exactPrefix := CoverPrefix(a.lo, a.hi);
    mask := Mask128(n);
    bits := n;
    active := n > 0;
    whole := exactPrefix && !a.hasExcl;
  }
}
