/** The header fields as bits of a packet: where the standards put them, how the evaluator reads them, and
    that the compiler's table of ranges is the range of those bits. */
module HeaderFields {
  import opened Words
  import opened Fields
  import opened Filter
  import opened Bits
  import opened Simplify
  import opened Packets

  /** Bit `k` of some bytes, counted from the most significant bit of the first byte. */
  function BitAt(b: seq<u8>, k: nat): (r: nat)
    requires k < 8 * |b|
    ensures r < 2
  {
    b[k / 8] as nat / Pow2(7 - k % 8) % 2
  }

  /** The number that `width` bits from `bit` on denote. */
  function BitField(b: seq<u8>, bit: nat, width: nat): nat
    requires bit + width <= 8 * |b|
  {
    if width == 0 then 0 else 2 * BitField(b, bit, width - 1) + BitAt(b, bit + width - 1)
  }

  datatype Place = Place(bit: nat, width: nat)

  /** Where RFC 791, RFC 8200, RFC 9293, RFC 768, RFC 792 and RFC 4443 put a field in its header. */
  function PlaceOf(f: Field): Option<Place> {
    if f == IP_HDRLENGTH then Some(Place(4, 4))
    else if f == IP_TOS then Some(Place(8, 8))
    else if f == IP_LENGTH then Some(Place(16, 16))
    else if f == IP_ID then Some(Place(32, 16))
    else if f == IP_DF then Some(Place(49, 1))
    else if f == IP_MF then Some(Place(50, 1))
    else if f == IP_FRAGOFF then Some(Place(51, 13))
    else if f == IP_TTL then Some(Place(64, 8))
    else if f == IP_PROTOCOL then Some(Place(72, 8))
    else if f == IP_CHECKSUM then Some(Place(80, 16))
    else if f == IPV6_TRAFFICCLASS then Some(Place(4, 8))
    else if f == IPV6_FLOWLABEL then Some(Place(12, 20))
    else if f == IPV6_LENGTH then Some(Place(32, 16))
    else if f == IPV6_NEXTHDR then Some(Place(48, 8))
    else if f == IPV6_HOPLIMIT then Some(Place(56, 8))
    else if f == ICMP_TYPE || f == ICMPV6_TYPE then Some(Place(0, 8))
    else if f == ICMP_CODE || f == ICMPV6_CODE then Some(Place(8, 8))
    else if f == ICMP_CHECKSUM || f == ICMPV6_CHECKSUM then Some(Place(16, 16))
    else if f == ICMP_BODY || f == ICMPV6_BODY then Some(Place(32, 32))
    else if f == TCP_SRCPORT || f == UDP_SRCPORT then Some(Place(0, 16))
    else if f == TCP_DSTPORT || f == UDP_DSTPORT then Some(Place(16, 16))
    else if f == TCP_SEQNUM then Some(Place(32, 32))
    else if f == TCP_ACKNUM then Some(Place(64, 32))
    else if f == TCP_HDRLENGTH then Some(Place(96, 4))
    else if f == TCP_URG then Some(Place(106, 1))
    else if f == TCP_ACK then Some(Place(107, 1))
    else if f == TCP_PSH then Some(Place(108, 1))
    else if f == TCP_RST then Some(Place(109, 1))
    else if f == TCP_SYN then Some(Place(110, 1))
    else if f == TCP_FIN then Some(Place(111, 1))
    else if f == TCP_WINDOW then Some(Place(112, 16))
    else if f == TCP_CHECKSUM then Some(Place(128, 16))
    else if f == TCP_URGPTR then Some(Place(144, 16))
    else if f == UDP_LENGTH then Some(Place(32, 16))
    else if f == UDP_CHECKSUM then Some(Place(48, 16))
    else None
  }

  /** How long the header of a placed field is. */
  function HeaderSize(h: Header): nat {
    match h
    case NoHeader => 0
    case IpHeader => 20
    case Ipv6Header => 40
    case TcpHeader => 20
    case _ => 8
  }

  /** How the evaluator reads a field from the bytes of its header. */
  function ReadField(b: seq<u8>, f: Field): u32
    requires PlaceOf(f).Some? && HeaderSize(HeaderOf(f)) <= |b|
  {
    if f == IP_HDRLENGTH then b[0] % 16
    else if f == IP_TOS then b[1]
    else if f == IP_LENGTH then BE16(b, 2)
    else if f == IP_ID then BE16(b, 4)
    else if f == IP_DF then b[6] / 0x40 % 2
    else if f == IP_MF then b[6] / 0x20 % 2
    else if f == IP_FRAGOFF then BE16(b, 6) % 0x2000
    else if f == IP_TTL then b[8]
    else if f == IP_PROTOCOL then b[9]
    else if f == IP_CHECKSUM then BE16(b, 10)
    else if f == IPV6_TRAFFICCLASS then ReadTrafficClass(b)
    else if f == IPV6_FLOWLABEL then ReadFlowLabel(b)
    else if f == IPV6_LENGTH then BE16(b, 4)
    else if f == IPV6_NEXTHDR then b[6]
    else if f == IPV6_HOPLIMIT then b[7]
    else if f == ICMP_TYPE || f == ICMPV6_TYPE then b[0]
    else if f == ICMP_CODE || f == ICMPV6_CODE then b[1]
    else if f == ICMP_CHECKSUM || f == ICMPV6_CHECKSUM then BE16(b, 2)
    else if f == ICMP_BODY || f == ICMPV6_BODY then BE32(b, 4)
    else if f == TCP_SRCPORT || f == UDP_SRCPORT then BE16(b, 0)
    else if f == TCP_DSTPORT || f == UDP_DSTPORT then BE16(b, 2)
    else if f == TCP_SEQNUM then BE32(b, 4)
    else if f == TCP_ACKNUM then BE32(b, 8)
    else if f == TCP_HDRLENGTH then b[12] / 16
    else if IsTcpFlag(f) then if TcpFlagBit(f) in FlagBits(b[13]) then 1 else 0
    else if f == TCP_WINDOW then BE16(b, 14)
    else if f == TCP_CHECKSUM then BE16(b, 16)
    else if f == TCP_URGPTR then BE16(b, 18)
    else if f == UDP_LENGTH then BE16(b, 4)
    else BE16(b, 6)
  }

  function ReadTrafficClass(b: seq<u8>): u32
    requires 2 <= |b|
  {
    var b0: nat, b1: nat := b[0], b[1];
    b0 % 16 * 16 + b1 / 16
  }

  /** The code joins the label's top bits with its other two bytes as they lie in memory, and then
      reverses the bytes of the whole word. */
  function ReadFlowLabel(b: seq<u8>): u32
    requires 4 <= |b|
  {
    var b1: nat, b2: nat, b3: nat := b[1], b[2], b[3];
    b2 * 0x100_0000 + b3 * 0x1_0000 + b1 % 16 * 0x100
  }

  lemma {:induction false} FieldBound(b: seq<u8>, bit: nat, width: nat)
    requires bit + width <= 8 * |b|
    ensures BitField(b, bit, width) < Pow2(width)
  {
    if width > 0 {
      FieldBound(b, bit, width - 1);
    }
  }

  /** A field of two parts. */
  lemma {:induction false} FieldJoin(b: seq<u8>, bit: nat, v: nat, w: nat)
    requires bit + v + w <= 8 * |b|
    ensures BitField(b, bit, v + w) == BitField(b, bit, v) * Pow2(w) + BitField(b, bit + v, w)
  {
    hide BitAt;
    if w > 0 {
      FieldJoin(b, bit, v, w - 1);
      Doubled(BitField(b, bit, v), Pow2(w - 1));
    }
  }

  lemma Doubled(x: nat, p: nat)
    ensures 2 * (x * p) == x * (2 * p)
  {
  }

  /** Bits inside one byte. */
  lemma {:induction false} InByte(b: seq<u8>, i: nat, j: nat, w: nat)
    requires i < |b| && j + w <= 8
    ensures BitField(b, 8 * i + j, w) == b[i] as nat / Pow2(8 - j - w) % Pow2(w)
  {
    if w > 0 {
      hide Pow2;
      InByte(b, i, j, w - 1);
      ByteBit(b, i, j + w - 1);
      var x: nat, p := b[i], Pow2(8 - j - w);
      PowStep(8 - j - w);
      PowStep(w - 1);
      LastBit(x, p, Pow2(w - 1));
    } else {
      assert Pow2(0) == 1;
    }
  }

  lemma PowStep(n: nat)
    ensures Pow2(n + 1) == 2 * Pow2(n) && Pow2(n) > 0
  {
  }

  lemma ByteBit(b: seq<u8>, i: nat, j: nat)
    requires i < |b| && j < 8
    ensures BitAt(b, 8 * i + j) == b[i] as nat / Pow2(7 - j) % 2
  {
    hide Pow2;
    assert (8 * i + j) / 8 == i && (8 * i + j) % 8 == j;
  }

  /** One more bit of `x / p`. */
  lemma LastBit(x: nat, p: nat, q: nat)
    requires p > 0 && q > 0
    ensures 2 * (x / (2 * p) % q) + x / p % 2 == x / p % (2 * q)
  {
    DivDiv(x, p, 2);
    assert p * 2 == 2 * p;
    var y := x / p;
    HalfMod(y, q);
  }

  lemma HalfMod(y: nat, q: nat)
    requires q > 0
    ensures 2 * (y / 2 % q) + y % 2 == y % (2 * q)
  {
    var h := y / 2;
    MulDivides(h, q);
    var k, r := h / q, h % q;
    assert y == 2 * (k * q + r) + y % 2;
    assert 2 * (k * q) == k * (2 * q);
    DivUnique(y, 2 * q, k, 2 * r + y % 2);
  }

  lemma ByteField(b: seq<u8>, i: nat)
    requires i < |b|
    ensures BitField(b, 8 * i, 8) == b[i]
  {
    hide BitField;
    InByte(b, i, 0, 8);
    Pow2Values();
    assert Pow2(0) == 1;
  }

  lemma ShortField(b: seq<u8>, i: nat)
    requires i + 2 <= |b|
    ensures BitField(b, 8 * i, 16) == BE16(b, i)
  {
    hide BitField;
    FieldJoin(b, 8 * i, 8, 8);
    ByteField(b, i);
    ByteField(b, i + 1);
    Pow2Values();
  }

  lemma LongField(b: seq<u8>, i: nat)
    requires i + 4 <= |b|
    ensures BitField(b, 8 * i, 32) == BE32(b, i)
  {
    hide BitField, BE16;
    FieldJoin(b, 8 * i, 16, 16);
    ShortField(b, i);
    ShortField(b, i + 2);
    Pow2Values();
  }

  /** Part of a byte with its divisor and modulus written out. */
  lemma PartField(b: seq<u8>, i: nat, j: nat, w: nat, d: nat, m: nat)
    requires i < |b| && j + w <= 8 && d == Pow2(8 - j - w) && m == Pow2(w)
    ensures BitField(b, 8 * i + j, w) == b[i] as nat / d % m
  {
    InByte(b, i, j, w);
  }

  /** Every field but the flow label is read as the bits the standards give it. */
  lemma ReadIsBits(b: seq<u8>, f: Field)
    requires PlaceOf(f).Some? && HeaderSize(HeaderOf(f)) <= |b| && f != IPV6_FLOWLABEL
    ensures var p := PlaceOf(f).value;
            p.bit + p.width <= 8 * |b| && ReadField(b, f) == BitField(b, p.bit, p.width)
  {
    hide BitField, BE16, BE32, FlagBits, ReadTrafficClass;
    if HeaderOf(f) == IpHeader {
      ReadIpBits(b, f);
    } else if HeaderOf(f) == Ipv6Header {
      ReadIpv6Bits(b, f);
    } else if HeaderOf(f) == TcpHeader {
      ReadTcpBits(b, f);
    } else {
      ByteField(b, 0);
      ByteField(b, 1);
      ShortField(b, 0);
      ShortField(b, 2);
      ShortField(b, 4);
      ShortField(b, 6);
      LongField(b, 4);
    }
  }

  lemma ReadIpBits(b: seq<u8>, f: Field)
    requires PlaceOf(f).Some? && HeaderOf(f) == IpHeader && 20 <= |b|
    ensures ReadField(b, f) == BitField(b, PlaceOf(f).value.bit, PlaceOf(f).value.width)
  {
    hide BitField, BE16;
    if f == IP_HDRLENGTH {
      PartField(b, 0, 4, 4, 1, 16);
    } else if f == IP_DF {
      PartField(b, 6, 1, 1, 0x40, 2);
    } else if f == IP_MF {
      PartField(b, 6, 2, 1, 0x20, 2);
    } else if f == IP_FRAGOFF {
      FragmentBits(b);
    } else if f == IP_TOS || f == IP_TTL || f == IP_PROTOCOL {
      ByteField(b, 1);
      ByteField(b, 8);
      ByteField(b, 9);
    } else {
      ShortField(b, 2);
      ShortField(b, 4);
      ShortField(b, 10);
    }
  }

  lemma FragmentBits(b: seq<u8>)
    requires 8 <= |b|
    ensures BE16(b, 6) % 0x2000 == BitField(b, 51, 13)
  {
    hide BitField;
    FieldJoin(b, 51, 5, 8);
    PartField(b, 6, 3, 5, 1, 0x20);
    ByteField(b, 7);
    Pow2Values();
    var hi: nat, lo: nat := b[6], b[7];
    assert hi * 0x100 + lo == hi / 0x20 * 0x2000 + (hi % 0x20 * 0x100 + lo);
  }

  lemma ReadIpv6Bits(b: seq<u8>, f: Field)
    requires PlaceOf(f).Some? && HeaderOf(f) == Ipv6Header && f != IPV6_FLOWLABEL && 40 <= |b|
    ensures ReadField(b, f) == BitField(b, PlaceOf(f).value.bit, PlaceOf(f).value.width)
  {
    hide BitField, BE16;
    if f == IPV6_TRAFFICCLASS {
      FieldJoin(b, 4, 4, 4);
      PartField(b, 0, 4, 4, 1, 16);
      PartField(b, 1, 0, 4, 16, 16);
    } else {
      ShortField(b, 4);
      ByteField(b, 6);
      ByteField(b, 7);
    }
  }

  lemma ReadTcpBits(b: seq<u8>, f: Field)
    requires PlaceOf(f).Some? && HeaderOf(f) == TcpHeader && 20 <= |b|
    ensures ReadField(b, f) == BitField(b, PlaceOf(f).value.bit, PlaceOf(f).value.width)
  {
    hide BitField, BE16, BE32;
    if f == TCP_HDRLENGTH {
      PartField(b, 12, 0, 4, 16, 16);
    } else if IsTcpFlag(f) {
      ReadFlagBit(b, f);
    } else if f == TCP_SEQNUM || f == TCP_ACKNUM {
      LongField(b, 4);
      LongField(b, 8);
    } else {
      ShortField(b, 0);
      ShortField(b, 2);
      ShortField(b, 14);
      ShortField(b, 16);
      ShortField(b, 18);
    }
  }

  lemma ReadFlagBit(b: seq<u8>, f: Field)
    requires IsTcpFlag(f) && 20 <= |b|
    ensures (if TcpFlagBit(f) in FlagBits(b[13]) then 1 else 0) == BitField(b, PlaceOf(f).value.bit, 1)
  {
    hide BitField, FlagBits;
    var x: nat := b[13];
    assert FlagBits(b[13]) == FlagBits(x);
    FlagBit(x, TcpFlagBit(f));
    InByte(b, 13, 7 - TcpFlagBit(f), 1);
    assert Pow2(1) == 2;
    hide Pow2;
    assert PlaceOf(f).value.bit == 8 * 13 + (7 - TcpFlagBit(f));
  }

  function Weight(k: nat): nat {
    if k == 0 then 1 else if k == 1 then 2 else if k == 2 then 4 else if k == 3 then 8 else if k == 4 then 16 else 32
  }

  lemma FlagMember(x: u8, k: nat)
    requires k < 6
    ensures k in FlagBits(x) <==> Odd(x, Weight(k))
  {
    hide Odd;
  }

  lemma FlagBit(x: u8, k: nat)
    requires k < 6
    ensures k in FlagBits(x) <==> x as nat / Pow2(k) % 2 == 1
  {
    hide FlagBits;
    FlagMember(x, k);
    assert Pow2(5) == 32 && Pow2(4) == 16 && Pow2(3) == 8 && Pow2(2) == 4 && Pow2(1) == 2 && Pow2(0) == 1;
    hide Pow2;
  }

  /** The label of an IPv6 header by its bits. */
  lemma LabelBits(b: seq<u8>)
    requires 4 <= |b|
    ensures BitField(b, 12, 20) == b[1] as nat % 16 * 0x1_0000 + b[2] as nat * 0x100 + b[3] as nat
  {
    hide BitField;
    FieldJoin(b, 12, 4, 16);
    PartField(b, 1, 4, 4, 1, 16);
    ShortField(b, 2);
    Pow2Values();
  }

  /** The flow label is read right exactly when it is zero, and in its range exactly when its last sixteen
      bits are below sixteen. */
  lemma FlowLabelIff(b: seq<u8>)
    requires 40 <= |b|
    ensures var bits := BitField(b, 12, 20);
            && (ReadField(b, IPV6_FLOWLABEL) == bits <==> bits == 0)
            && (InRange(IPV6_FLOWLABEL, Small(ReadField(b, IPV6_FLOWLABEL))) <==> bits % 0x1_0000 < 16)
  {
    hide BitField, InRange;
    LabelBits(b);
    var b1: nat, b2: nat, b3: nat := b[1], b[2], b[3];
    var top := b1 % 16;
    assert (top * 0x1_0000 + b2 * 0x100 + b3) % 0x1_0000 == b2 * 0x100 + b3;
    LabelInRange(ReadFlowLabel(b));
  }

  lemma LabelInRange(n: u32)
    ensures InRange(IPV6_FLOWLABEL, Small(n)) <==> n <= 0xF_FFFF
  {
    assert FieldBounds(IPV6_FLOWLABEL) == UpTo(0xF_FFFF);
    assert Val([n, 0, 0, 0]) == n && Val([0xF_FFFF, 0, 0, 0]) == 0xF_FFFF && Val(ZEROES) == 0;
  }

  /** For instance, the label 0x12345 is read as 0x23450100. */
  lemma FlowLabelMisread(b: seq<u8>)
    requires 40 <= |b| && BitField(b, 12, 20) == 0x1_2345
    ensures ReadField(b, IPV6_FLOWLABEL) == 0x2345_0100
  {
    hide BitField;
    LabelBits(b);
    var b1: nat, b2: nat, b3: nat := b[1], b[2], b[3];
    assert b1 % 16 == 1 && b2 == 0x23 && b3 == 0x45;
  }

  /** A range that is all numbers of so many bits. */
  predicate SpansBits(b: Bounds, width: nat) {
    && !b.negLo && !b.only && b.lo == ZEROES && b.hi[1] == b.hi[2] == b.hi[3] == 0 && b.hi[0] as int + 1 == Pow2(width)
  }

  lemma UpToSpans(n: u32, width: nat)
    requires n as int + 1 == Pow2(width)
    ensures SpansBits(UpTo(n).value, width)
  {
    hide Pow2;
  }

  lemma UpToWidths()
    ensures SpansBits(UpTo(1).value, 1) && SpansBits(UpTo(0xF).value, 4) && SpansBits(UpTo(0xFF).value, 8)
    ensures SpansBits(UpTo(0x1FFF).value, 13) && SpansBits(UpTo(0xFFFF).value, 16)
    ensures SpansBits(UpTo(0xF_FFFF).value, 20)
  {
    hide SpansBits;
    Pow2Values();
    assert Pow2(1) == 2 && Pow2(4) == 16 && Pow2(13) == 0x2000;
    Pow2Sum(4, 16);
    hide Pow2;
    UpToSpans(1, 1);
    UpToSpans(0xF, 4);
    UpToSpans(0xFF, 8);
    UpToSpans(0x1FFF, 13);
    UpToSpans(0xFFFF, 16);
    UpToSpans(0xF_FFFF, 20);
  }

  /** The compiler's range of a header field is the range of its bits, but for the type of service, whose
      eight bits are given sixteen. */
  lemma RangeIsBits(f: Field)
    requires PlaceOf(f).Some? && FieldBounds(f).Some?
    ensures SpansBits(FieldBounds(f).value, if f == IP_TOS then 16 else PlaceOf(f).value.width)
    ensures f == IP_TOS ==> PlaceOf(f).value.width == 8
  {
    hide SpansBits, UpTo;
    UpToWidths();
  }

  /** Are the bytes that a place lies in all ones, or all zeroes? */
  predicate Alike(b: seq<u8>, bit: nat, width: nat, one: bool)
    requires bit + width <= 8 * |b|
  {
    forall i :: 0 <= i < |b| && bit <= 8 * i + 7 && 8 * i < bit + width ==> b[i] == if one then 0xFF else 0
  }

  lemma {:induction false} AllBitsAlike(b: seq<u8>, one: bool, bit: nat, width: nat)
    requires bit + width <= 8 * |b| && Alike(b, bit, width, one)
    ensures BitField(b, bit, width) == if one then Pow2(width) - 1 else 0
  {
    if width > 0 {
      AllBitsAlike(b, one, bit, width - 1);
      EveryBit(b[(bit + width - 1) / 8], 7 - (bit + width - 1) % 8);
    }
  }

  lemma EveryBit(x: u8, k: nat)
    requires k < 8 && (x == 0 || x == 0xFF)
    ensures x as nat / Pow2(k) % 2 == if x == 0 then 0 else 1
  {
    assert Pow2(0) == 1 && Pow2(1) == 2 && Pow2(2) == 4 && Pow2(3) == 8;
    assert Pow2(4) == 16 && Pow2(5) == 32 && Pow2(6) == 64 && Pow2(7) == 128;
  }

  /** Bytes of zeroes show the lower end of a range, bytes of ones the upper end. */
  lemma BothEnds(f: Field, b: seq<u8>, one: bool)
    requires PlaceOf(f).Some? && FieldBounds(f).Some? && f != IPV6_FLOWLABEL && (f == IP_TOS ==> !one)
    requires HeaderSize(HeaderOf(f)) <= |b|
    requires PlaceOf(f).value.bit + PlaceOf(f).value.width <= 8 * |b|
    requires Alike(b, PlaceOf(f).value.bit, PlaceOf(f).value.width, one)
    ensures ReadField(b, f) == if one then FieldBounds(f).value.hi[0] else FieldBounds(f).value.lo[0]
  {
    hide ReadField, BitField, FieldBounds;
    ReadIsBits(b, f);
    RangeIsBits(f);
    AllBitsAlike(b, one, PlaceOf(f).value.bit, PlaceOf(f).value.width);
  }

  /** Whatever the header's bytes, a field's value is typed as the compiler assumes. */
  lemma PlacedTyped(b: seq<u8>, f: Field)
    requires PlaceOf(f).Some? && HeaderSize(HeaderOf(f)) <= |b|
    ensures TypedValue(f, Small(ReadField(b, f)))
  {
    NotWide(f);
    if f != IPV6_FLOWLABEL && FieldBounds(f).Some? {
      hide ReadField, BitField, FieldBounds;
      var p := PlaceOf(f).value;
      ReadIsBits(b, f);
      RangeIsBits(f);
      FieldBound(b, p.bit, p.width);
      if f == IP_TOS {
        Pow2Monotonic(8, 16);
      }
      SmallWithin(FieldBounds(f).value, if f == IP_TOS then 16 else p.width, ReadField(b, f));
    }
  }

  lemma NotWide(f: Field)
    requires PlaceOf(f).Some?
    ensures !IsWide(f)
  {
  }

  lemma SmallWithin(b: Bounds, width: nat, n: u32)
    requires SpansBits(b, width) && n < Pow2(width)
    ensures Within(b, false, [n, 0, 0, 0])
  {
    hide Pow2;
    assert Val([n, 0, 0, 0]) == n && Val(b.hi) == b.hi[0] && Val(ZEROES) == 0;
  }
}
