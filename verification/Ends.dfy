/** How far the compiler's ranges are used: which end of which field's range some packet shows. */
module Ends {
  import opened Words
  import opened Fields
  import opened Filter
  import opened Simplify
  import opened Packets
  import opened HeaderFields
  import opened Values

  /** The fields with a range that are read from the packet or its metadata. */
  predicate Ranged(f: Field) {
    && FieldBounds(f).Some?
    && (PlaceOf(f).Some? || IsArray(f) || f == TCP_PAYLOADLENGTH || f == UDP_PAYLOADLENGTH || f == LENGTH ||
        f == IFIDX || f == SUBIFIDX || f == FRAGMENT || RANDOM8 <= f <= RANDOM32 || f == TIMESTAMP)
  }

  /** Does a whole, unfragmented packet show the upper (`top`) or lower end of a field's range? */
  predicate Reaches(f: Field, top: bool) {
    if top then
      && f != IP_TOS && f != IP_MF && f != IP_FRAGOFF && f != FRAGMENT && f != IPV6_FLOWLABEL
      && f != TCP_PAYLOADLENGTH && f != UDP_PAYLOADLENGTH
    else f != IP_HDRLENGTH && f != IP_LENGTH && f != TCP_HDRLENGTH
  }

  predicate IsEnd(f: Field, op: Operand, top: bool)
    requires FieldBounds(f).Some?
  {
    var b := FieldBounds(f).value;
    op.neg == (b.negLo && !top) && op.words == if top then b.hi else b.lo
  }

  /** The ends that no packet shows. */
  lemma EndsMissed(x: Input, linear: nat, f: Field, index: u32, top: bool)
    requires Recognised(x, linear) && Ranged(f) && !Reaches(f, top)
    ensures var op := OtherValue(x, f, index);
            op.Some? ==> !IsEnd(f, op.value, top)
  {
    hide Recognised, Laid, OtherValue, IsEnd;
    RecognisedLaid(x, linear);
    if PlaceOf(f).Some? {
      PlacedMissed(x, linear, f, index, top);
    } else {
      PayloadFits(x);
      UnplacedMissed(x, f, index);
    }
  }

  lemma PlacedMissed(x: Input, linear: nat, f: Field, index: u32, top: bool)
    requires Recognised(x, linear) && Ranged(f) && !Reaches(f, top) && PlaceOf(f).Some? && Laid(x)
    ensures var op := OtherValue(x, f, index);
            op.Some? ==> !IsEnd(f, op.value, top)
  {
    hide Recognised, OtherValue, IsEnd, Laid;
    if HeaderOf(f) == IpHeader {
      Ipv4Missed(x, linear, f, index, top);
    } else {
      OtherMissed(x, f, index, top);
    }
  }

  lemma Ipv4Missed(x: Input, linear: nat, f: Field, index: u32, top: bool)
    requires Recognised(x, linear) && !Reaches(f, top) && PlaceOf(f).Some? && Laid(x) && HeaderOf(f) == IpHeader
    ensures var op := OtherValue(x, f, index);
            op.Some? ==> !IsEnd(f, op.value, top)
  {
    hide Follow, PacketLength, FlagBits, TransportComplete;
  }

  lemma OtherMissed(x: Input, f: Field, index: u32, top: bool)
    requires (f == IPV6_FLOWLABEL && top) || (f == TCP_HDRLENGTH && !top)
    requires Laid(x)
    ensures var op := OtherValue(x, f, index);
            op.Some? ==> !IsEnd(f, op.value, top)
  {
    hide PacketLength, FlagBits;
  }

  lemma UnplacedMissed(x: Input, f: Field, index: u32)
    requires f == FRAGMENT || f == TCP_PAYLOADLENGTH || f == UDP_PAYLOADLENGTH
    requires Laid(x) && PayloadStart(x) <= PacketLength(x.pkt) <= PayloadStart(x) + 0xFFFF - Needs(x.proto)
    ensures var op := OtherValue(x, f, index);
            op.Some? ==> !IsEnd(f, op.value, true)
  {
    hide Laid, PayloadStart, PacketLength;
  }

  function Fill(n: nat, v: u8): seq<u8> { seq(n, _ => v) }

  const QUIET := Meta(0, 0, false, 0, 0)
  const LOUD := Meta(0xFFFF_FFFF, 0xFFFF_FFFF, true, 0x7FFF_FFFF_FFFF_FFFF, 0xFFFF_FFFF_FFFF_FFFF)
  const EARLY := QUIET.(timestamp := -0x8000_0000_0000_0000)

  function Ipv4Header(proto: u8): seq<u8> {
    [0x45, 0, 0xFF, 0xFF, 0, 0, 0, 0, 0, proto, 0, 0, 0, 0, 0, 0, 0, 0, 0, 0]
  }

  /** An IPv4 packet whose fields are all high or all low, with sixty bytes and no transport header. */
  function Ipv4Sample(v: u8): Input {
    if v == 0 then
      Input([0x45, 0, 0xFF, 0xFF, 0, 0, 0, 0, 0, 0, 0, 0] + Fill(48, 0), 0, 20, QUIET)
    else
      Input([0x4F, v, 0xFF, 0xFF, v, v, 0x40, 0, v, 0xFF, v, v] + Fill(48, 0), 0xFF, 60, LOUD)
  }

  function Ipv6Sample(v: u8, next: u8): Input {
    if next == 0 then
      Input([0x60, 0, 0, 0, 0, 8, 0, 0] + Fill(32, 0) + [59] + Fill(7, 0), 59, 48, QUIET)
    else if v == 0 then
      Input([0x60, 0, 0, 0, 0, 0, 59, 0] + Fill(32, 0), 59, 40, QUIET)
    else
      Input([0x6F, v, 0, 0, v, v, 0xFF, v] + Fill(32, 0), 0xFF, 40, LOUD)
  }

  /** A segment of 20 bytes and 8 of payload, all alike but for the header length in `first`. */
  function TcpSample(v: u8, first: u8): Input {
    Input(Ipv4Header(IPPROTO_TCP) + Fill(12, v) + [first] + Fill(15, v), IPPROTO_TCP, 20, QUIET)
  }

  function UdpSample(n: nat, v: u8): Input {
    Input(Ipv4Header(IPPROTO_UDP) + Fill(n, v), IPPROTO_UDP, 20, QUIET)
  }

  function IcmpSample(v: u8): Input {
    Input(Ipv4Header(IPPROTO_ICMP) + Fill(8, v), IPPROTO_ICMP, 20, QUIET)
  }

  function Icmpv6Sample(v: u8): Input {
    Input([0x60, 0, 0, 0, 0, 8, IPPROTO_ICMPV6, 0] + Fill(32, 0) + Fill(8, v), IPPROTO_ICMPV6, 40, QUIET)
  }

  ghost predicate Shows(x: Input, f: Field, index: u32, top: bool)
    requires FieldBounds(f).Some?
  {
    && Recognised(x, |x.pkt|) && |x.pkt| <= 40 + 0xFFFF
    && var op := OtherValue(x, f, index);
       op.Some? && IsEnd(f, op.value, top)
  }

  lemma ShowsSmall(x: Input, f: Field, index: u32, top: bool)
    requires FieldBounds(f).Some? && !FieldBounds(f).value.negLo && FieldBounds(f).value.lo == ZEROES
    requires FieldBounds(f).value.hi == [FieldBounds(f).value.hi[0], 0, 0, 0]
    requires Recognised(x, |x.pkt|) && |x.pkt| <= 40 + 0xFFFF
    requires OtherValue(x, f, index) == Some(Small(if top then FieldBounds(f).value.hi[0] else 0))
    ensures Shows(x, f, index, top)
  {
    hide FieldBounds, OtherValue, Recognised;
  }

  /** A field whose bytes are alike. */
  lemma ShowsPlaced(x: Input, f: Field, top: bool)
    requires Recognised(x, |x.pkt|) && |x.pkt| <= 40 + 0xFFFF && Laid(x)
    requires FieldBounds(f).Some? && PlaceOf(f).Some? && f != IPV6_FLOWLABEL && (f == IP_TOS ==> !top)
    requires HeaderStart(x, HeaderOf(f)).Some?
    requires PlaceOf(f).value.bit + PlaceOf(f).value.width <= 8 * |HeaderBytes(x, HeaderOf(f))|
    requires Alike(HeaderBytes(x, HeaderOf(f)), PlaceOf(f).value.bit, PlaceOf(f).value.width, top)
    ensures Shows(x, f, 0, top)
  {
    hide FieldBounds, Recognised, ReadField, HeaderBytes, HeaderStart, PlaceOf, Laid;
    BothEnds(f, HeaderBytes(x, HeaderOf(f)), top);
    RangeIsBits(f);
    var hi := FieldBounds(f).value.hi;
    assert hi == [hi[0], 0, 0, 0];
    ShowsSmall(x, f, 0, top);
  }

  lemma Ipv4Found(v: u8)
    requires v == 0 || v == 0xFF
    ensures var x := Ipv4Sample(v);
            Recognised(x, |x.pkt|) && |x.pkt| == 60 && Laid(x) && HeaderStart(x, IpHeader) == Some(0)
  {
  }

  lemma Ipv4Ends(f: Field, top: bool)
    requires Ranged(f) && PlaceOf(f).Some? && HeaderOf(f) == IpHeader && Reaches(f, top)
    ensures Shows(Ipv4Sample(if top then 0xFF else 0), f, 0, top)
  {
    hide Recognised, Laid, SpansBits;
    var x := Ipv4Sample(if top then 0xFF else 0);
    Ipv4Found(if top then 0xFF else 0);
    assert HeaderBytes(x, IpHeader) == x.pkt;
    if top && (f == IP_HDRLENGTH || f == IP_DF) {
      ShowsSmall(x, f, 0, top);
    } else {
      ShowsPlaced(x, f, top);
    }
  }

  lemma Ipv6Found(v: u8, next: u8)
    requires (v == 0 || v == 0xFF) && (next == 0 || next == 59)
    ensures var x := Ipv6Sample(v, next);
            && Recognised(x, |x.pkt|) && 40 <= |x.pkt| <= 48 && Laid(x)
            && HeaderStart(x, Ipv6Header) == Some(0)
  {
    var x := Ipv6Sample(v, next);
    if next == 0 {
      assert Follow(x.pkt, 48, 59, 48, 3) == Some((59, 48));
    }
  }

  lemma Ipv6Ends(f: Field, top: bool)
    requires Ranged(f) && PlaceOf(f).Some? && HeaderOf(f) == Ipv6Header && Reaches(f, top)
    ensures Shows(Ipv6Sample(if top then 0xFF else 0, if f == IPV6_NEXTHDR && !top then 0 else 59), f, 0, top)
  {
    hide Recognised, Laid, SpansBits;
    var next := if f == IPV6_NEXTHDR && !top then 0 else 59;
    var x := Ipv6Sample(if top then 0xFF else 0, next);
    Ipv6Found(if top then 0xFF else 0, next);
    assert HeaderBytes(x, Ipv6Header) == x.pkt;
    if f == IPV6_TRAFFICCLASS || f == IPV6_FLOWLABEL {
      ShowsSmall(x, f, 0, top);
    } else {
      ShowsPlaced(x, f, top);
    }
  }

  lemma TcpFound(v: u8, first: u8)
    requires first as int / 16 >= 5
    ensures var x := TcpSample(v, first);
            && Recognised(x, |x.pkt|) && |x.pkt| == 48 == PacketLength(x.pkt) && Laid(x)
            && HeaderStart(x, TcpHeader) == Some(20) && PayloadStart(x) == Min(20 + first as int / 16 * 4, 48)
            && forall i :: 20 <= i < 48 ==> x.pkt[i] == if i == 32 then first else v
  {
  }

  lemma TcpPlaced(f: Field, top: bool)
    requires Ranged(f) && PlaceOf(f).Some? && HeaderOf(f) == TcpHeader && f != TCP_HDRLENGTH
    ensures Shows(TcpSample(if top then 0xFF else 0, 0x50), f, 0, top)
  {
    hide Recognised, Laid, FieldBounds, TcpSample, PayloadStart, PacketLength;
    var v := if top then 0xFF else 0;
    var x := TcpSample(v, 0x50);
    TcpFound(v, 0x50);
    var b, p := HeaderBytes(x, TcpHeader), PlaceOf(f).value;
    assert forall i :: 0 <= i < 20 ==> b[i] == x.pkt[20 + i];
    PlaceAround(f);
    hide PlaceOf;
    assert Alike(b, p.bit, p.width, top);
    ShowsPlaced(x, f, top);
  }

  /** Of the TCP fields only the header length lies in byte 12. */
  lemma PlaceAround(f: Field)
    requires PlaceOf(f).Some? && HeaderOf(f) == TcpHeader && f != TCP_HDRLENGTH
    ensures var p := PlaceOf(f).value;
            0 < p.width && (p.bit + p.width <= 96 || 104 <= p.bit) && p.bit + p.width <= 160
  {
  }

  lemma TcpLengths(f: Field, top: bool)
    requires f == TCP_HDRLENGTH || f == TCP_PAYLOADLENGTH
    requires Reaches(f, top)
    ensures Shows(TcpSample(0xFF, 0xFF), f, 0, top)
  {
    hide Recognised, Laid, SpansBits, TcpSample, PayloadStart, PacketLength, BE16, BE32;
    var x := TcpSample(0xFF, 0xFF);
    TcpFound(0xFF, 0xFF);
    assert HeaderBytes(x, TcpHeader)[12] == x.pkt[32] == 0xFF;
    ShowsSmall(x, f, 0, top);
  }

  lemma TcpData(f: Field, top: bool)
    requires TCP_PAYLOAD <= f <= TCP_PAYLOAD32
    ensures Shows(TcpSample(if top then 0xFF else 0, 0x50), f, 0, top)
  {
    hide Recognised, Laid, SpansBits, TcpSample, PayloadStart, PacketLength, ReadField;
    TcpFound(if top then 0xFF else 0, 0x50);
    ShowsSmall(TcpSample(if top then 0xFF else 0, 0x50), f, 0, top);
  }

  lemma TcpEnds(f: Field, top: bool) returns (x: Input)
    requires Ranged(f) && HeaderOf(f) == TcpHeader && Reaches(f, top)
    ensures Shows(x, f, 0, top)
  {
    hide Shows, TcpSample;
    if f == TCP_HDRLENGTH || f == TCP_PAYLOADLENGTH {
      x := TcpSample(0xFF, 0xFF);
      TcpLengths(f, top);
    } else if IsArray(f) {
      x := TcpSample(if top then 0xFF else 0, 0x50);
      TcpData(f, top);
    } else {
      x := TcpSample(if top then 0xFF else 0, 0x50);
      TcpPlaced(f, top);
    }
  }

  lemma UdpFound(n: nat, v: u8)
    requires 8 <= n <= 16
    ensures var x := UdpSample(n, v);
            && Recognised(x, |x.pkt|) && |x.pkt| == 20 + n == PacketLength(x.pkt) && Laid(x)
            && HeaderStart(x, UdpHeader) == Some(20) && PayloadStart(x) == 28
            && forall i :: 20 <= i < 20 + n ==> x.pkt[i] == v
  {
  }

  lemma UdpEnds(f: Field, top: bool) returns (x: Input)
    requires Ranged(f) && HeaderOf(f) == UdpHeader && Reaches(f, top)
    ensures Shows(x, f, 0, top)
  {
    hide Recognised, Laid, SpansBits, UdpSample, PayloadStart, PacketLength;
    var n, v := if f == UDP_PAYLOADLENGTH then 8 else 16, if top then 0xFF else 0;
    x := UdpSample(n, v);
    UdpFound(n, v);
    if PlaceOf(f).Some? {
      ShowsPlaced(x, f, top);
    } else {
      ShowsSmall(x, f, 0, top);
    }
  }

  lemma IcmpFound(v: u8)
    ensures var x := IcmpSample(v);
            && Recognised(x, |x.pkt|) && |x.pkt| == 28 && Laid(x) && HeaderStart(x, IcmpHeader) == Some(20)
            && forall i :: 20 <= i < 28 ==> x.pkt[i] == v
    ensures var x := Icmpv6Sample(v);
            && Recognised(x, |x.pkt|) && |x.pkt| == 48 && Laid(x) && HeaderStart(x, Icmpv6Header) == Some(40)
            && forall i :: 40 <= i < 48 ==> x.pkt[i] == v
  {
  }

  lemma IcmpEnds(f: Field, top: bool) returns (x: Input)
    requires Ranged(f) && (HeaderOf(f) == IcmpHeader || HeaderOf(f) == Icmpv6Header)
    ensures Shows(x, f, 0, top)
  {
    hide Recognised, Laid, FieldBounds, IcmpSample, Icmpv6Sample;
    var v := if top then 0xFF else 0;
    IcmpFound(v);
    x := if HeaderOf(f) == IcmpHeader then IcmpSample(v) else Icmpv6Sample(v);
    ShowsPlaced(x, f, top);
  }

  /** The shortest packet, and the longest. */
  function LengthSample(top: bool): Input {
    if top then Input([0x60, 0, 0, 0, 0xFF, 0xFF, 59, 0] + Fill(32 + 0xFFFF, 0), 59, 40, QUIET)
    else Input(Ipv4Header(0), 0, 20, QUIET)
  }

  lemma LengthFound(top: bool)
    ensures var x := LengthSample(top);
            Recognised(x, |x.pkt|) && Laid(x) && |x.pkt| == if top then 40 + 0xFFFF else 20
  {
    hide FlagBits, BE32, PlaceOf;
    var x := LengthSample(top);
    RecognisedLaid(x, |x.pkt|);
    hide Laid;
  }

  lemma LengthEnds(top: bool)
    ensures Shows(LengthSample(top), LENGTH, 0, top)
  {
    hide Recognised, Laid, LengthSample;
    LengthFound(top);
  }

  lemma TimeEnds(top: bool) returns (x: Input)
    ensures Shows(x, TIMESTAMP, 0, top)
  {
    hide Recognised, Laid, UdpSample;
    UdpFound(8, 0);
    x := UdpSample(8, 0).(meta := if top then LOUD else EARLY);
    MetaIrrelevant(UdpSample(8, 0), x);
  }

  lemma RandomEnds(f: Field, top: bool) returns (x: Input)
    requires RANDOM8 <= f <= RANDOM32
    ensures Shows(x, f, 0, top)
  {
    hide Recognised, Laid, UdpSample, PayloadStart, PacketLength, ReadData, HeaderStart, SignedValue, ReadField;
    UdpFound(8, 0);
    x := UdpSample(8, 0).(meta := if top then LOUD else QUIET);
    MetaIrrelevant(UdpSample(8, 0), x);
    ShowsSmall(x, f, 0, top);
  }

  lemma MetaEnds(f: Field, top: bool) returns (x: Input)
    requires f == IFIDX || f == SUBIFIDX || (f == FRAGMENT && !top)
    ensures Shows(x, f, 0, top)
  {
    hide Recognised, Laid, UdpSample, PayloadStart, PacketLength, ReadData, HeaderStart, SignedValue, ReadField;
    hide Shows;
    UdpFound(8, 0);
    x := UdpSample(8, 0).(meta := if top then LOUD else QUIET);
    MetaIrrelevant(UdpSample(8, 0), x);
    ShowsSmall(x, f, 0, top);
  }

  lemma MetaIrrelevant(x: Input, y: Input)
    requires y == x.(meta := y.meta)
    ensures Recognised(x, |x.pkt|) ==> Recognised(y, |y.pkt|)
    ensures Laid(x) ==> Laid(y)
  {
  }

  /** Every end of a range that is not listed as missed is shown by some packet. */
  lemma EndsOccur(f: Field, top: bool) returns (x: Input, index: u32)
    requires Ranged(f) && Reaches(f, top)
    ensures Shows(x, f, index, top)
  {
    hide Shows;
    index := 0;
    if PACKET <= f <= PACKET16 {
      index := 28;
      x := DataEnds(f, top);
    } else if HeaderOf(f) == TcpHeader {
      x := TcpEnds(f, top);
    } else if HeaderOf(f) == UdpHeader {
      x := UdpEnds(f, top);
    } else if HeaderOf(f) == IpHeader {
      x := Ipv4Sample(if top then 0xFF else 0);
      Ipv4Ends(f, top);
    } else if HeaderOf(f) == Ipv6Header {
      x := Ipv6Sample(if top then 0xFF else 0, if f == IPV6_NEXTHDR && !top then 0 else 59);
      Ipv6Ends(f, top);
    } else if HeaderOf(f) != NoHeader {
      x := IcmpEnds(f, top);
    } else if f == LENGTH {
      x := LengthSample(top);
      LengthEnds(top);
    } else if f == TIMESTAMP {
      x := TimeEnds(top);
    } else if RANDOM8 <= f <= RANDOM32 {
      x := RandomEnds(f, top);
    } else {
      x := MetaEnds(f, top);
    }
  }

  lemma DataEnds(f: Field, top: bool) returns (x: Input)
    requires f == PACKET || f == PACKET16
    ensures Shows(x, f, 28, top)
  {
    hide Recognised, Laid, UdpSample;
    var v := if top then 0xFF else 0;
    x := UdpSample(16, v);
    UdpFound(16, v);
    ShowsSmall(x, f, 28, top);
  }
}
