/** What a packet's fields hold.  The values outside the lowering are read from the packet's bytes and its
    metadata, so that they lie in the compiler's ranges is proved and not assumed. */
module Values {
  import opened Words
  import opened Fields
  import opened Filter
  import opened Simplify
  import opened Packets
  import opened HeaderFields

  type i64 = x: int | -0x8000_0000_0000_0000 <= x < 0x8000_0000_0000_0000
  type u64 = x: int | 0 <= x < 0x1_0000_0000_0000_0000

  /** What comes with a packet; `random` is the hash the random fields are cut from. */
  datatype Meta = Meta(ifIdx: u32, subIfIdx: u32, impostor: bool, timestamp: i64, random: u64)

  /** An unfragmented packet, its transport protocol and the place of its transport header. */
  datatype Input = Input(pkt: seq<u8>, proto: u8, off: nat, meta: Meta)

  /** How many of a packet's bytes its IP header accounts for. */
  function PacketLength(pkt: seq<u8>): (n: nat)
    requires 20 <= |pkt|
    ensures n <= |pkt|
  {
    if pkt[0] as int / 16 == 6 then Min(BE16(pkt, 4) + 40, |pkt|) else Min(BE16(pkt, 2), |pkt|)
  }

  predicate Laid(x: Input) {
    && 20 <= |x.pkt| < B32
    && (if x.pkt[0] as int / 16 == 6 then 40 <= |x.pkt| && 40 <= x.off else 20 <= x.off)
    && x.off + Needs(x.proto) <= PacketLength(x.pkt)
    && (x.proto == IPPROTO_TCP ==> x.pkt[x.off + 12] as int / 16 >= 5)
  }

  /** Where the payload behind the transport header starts. */
  function PayloadStart(x: Input): nat
    requires Laid(x)
  {
    if x.proto == IPPROTO_TCP then Min(x.off + x.pkt[x.off + 12] as int / 16 * 4, PacketLength(x.pkt))
    else x.off + Needs(x.proto)
  }

  /** `size` bytes from an index on, which counts from the end when it is negative. */
  function ReadData(pkt: seq<u8>, min: nat, max: nat, index: u32, size: nat): Option<Operand>
    requires max <= |pkt|
  {
    var i: int := if index < 0x8000_0000 then index + min else index - B32 + max;
    if i < min || i > max - size then None
    else if size == 1 then Some(Small(pkt[i]))
    else if size == 2 then Some(Small(BE16(pkt, i)))
    else if size == 4 then Some(Small(BE32(pkt, i)))
    else None
  }

  function Magnitude(n: int): nat { if n < 0 then -n else n }

  /** A 64-bit number as sign and magnitude. */
  function SignedValue(n: i64): Operand {
    var m := Magnitude(n);
    Operand(n < 0, [m % B32, m / B32, 0, 0], true)
  }

  /** Where the header of a field is, if the packet has it. */
  function HeaderStart(x: Input, h: Header): Option<nat>
    requires Laid(x)
  {
    var six := x.pkt[0] as int / 16 == 6;
    match h
    case NoHeader => None
    case IpHeader => if six then None else Some(0)
    case Ipv6Header => if six then Some(0) else None
    case TcpHeader => if x.proto == IPPROTO_TCP then Some(x.off) else None
    case UdpHeader => if x.proto == IPPROTO_UDP then Some(x.off) else None
    case IcmpHeader => if x.proto == IPPROTO_ICMP && !six then Some(x.off) else None
    case Icmpv6Header => if x.proto == IPPROTO_ICMPV6 && six then Some(x.off) else None
  }

  /** The bytes of a packet from the header of a field on. */
  function HeaderBytes(x: Input, h: Header): (b: seq<u8>)
    requires Laid(x) && HeaderStart(x, h).Some?
    ensures HeaderSize(h) <= |b|
  {
    x.pkt[HeaderStart(x, h).value..]
  }

  function OtherValue(x: Input, f: Field, index: u32): Option<Operand> {
    if !Laid(x) then None
    else if PlaceOf(f).None? then MetaValue(x, f, index)
    else if HeaderStart(x, HeaderOf(f)).None? then None
    else Some(Small(ReadField(HeaderBytes(x, HeaderOf(f)), f)))
  }

  function MetaValue(x: Input, f: Field, index: u32): Option<Operand>
    requires Laid(x)
  {
    if f == LENGTH then Some(Small(|x.pkt|))
    else if f == IFIDX then Some(Small(x.meta.ifIdx))
    else if f == SUBIFIDX then Some(Small(x.meta.subIfIdx))
    else if f == IMPOSTOR then Some(Bool(x.meta.impostor))
    else if f == FRAGMENT then Some(Bool(false))
    else if f == RANDOM8 then Some(Small(x.meta.random / 0x1_0000_0000_0000 % 0x100))
    else if f == RANDOM16 then Some(Small(x.meta.random / B32 % 0x1_0000))
    else if f == RANDOM32 then Some(Small(x.meta.random % B32))
    else if f == TIMESTAMP then Some(SignedValue(x.meta.timestamp))
    else if PACKET <= f <= PACKET32 then ReadData(x.pkt, 0, |x.pkt|, index, DataSize(f))
    else if HeaderOf(f) == NoHeader || HeaderStart(x, HeaderOf(f)).None? then None
    else if f == TCP_PAYLOADLENGTH || f == UDP_PAYLOADLENGTH then
      Some(Small((PacketLength(x.pkt) - PayloadStart(x)) % 0x1_0000))
    else if IsArray(f) then ReadData(x.pkt, PayloadStart(x), PacketLength(x.pkt), index, DataSize(f))
    else None
  }

  /** The width of an array field's elements. */
  function DataSize(f: Field): nat {
    if f == PACKET || f == TCP_PAYLOAD || f == UDP_PAYLOAD then 1
    else if f == PACKET16 || f == TCP_PAYLOAD16 || f == UDP_PAYLOAD16 then 2
    else 4
  }

  function OthersOf(x: Input): Others {
    (f: Field, index: u32) => OtherValue(x, f, index)
  }

  /** A packet with complete headers, as both parsers find them. */
  ghost predicate Recognised(x: Input, linear: nat) {
    linear <= |x.pkt| < B32 && Layout(x.pkt, linear) == Some((x.proto, x.off))
  }

  lemma RecognisedLaid(x: Input, linear: nat)
    requires Recognised(x, linear)
    ensures Laid(x)
  {
    hide BE16, Follow;
    if x.pkt[0] as int / 16 == 6 {
      FollowForward(x.pkt, Min(linear, BE16(x.pkt, 4) + 40), x.pkt[6], 40, 4);
    }
  }

  lemma {:induction false} FollowForward(pkt: seq<u8>, limit: nat, proto: u8, off: nat, n: nat)
    requires limit <= |pkt|
    ensures var r := Follow(pkt, limit, proto, off, n);
            r.Some? ==> off <= r.value.1
    decreases n
  {
    if IsExtension(proto) && Follow(pkt, limit, proto, off, n).Some? {
      FollowForward(pkt, limit, pkt[off], off + OptionLength(pkt[off + 1]), n - 1);
    }
  }

  /** What the evaluator sees of a packet. */
  function ViewFrom(x: Input, outbound: bool, loopback: bool): View
    requires Laid(x)
  {
    ViewOf(Reference(x.pkt, x.proto, x.off), outbound, loopback, OthersOf(x))
  }

  /** On every packet, each header field has the value of the bits the standards give it, and no value when the
      packet has no such header. */
  lemma FieldsAreBits(x: Input, outbound: bool, loopback: bool, f: Field, index: u32)
    requires Laid(x) && PlaceOf(f).Some? && f != IPV6_FLOWLABEL
    ensures var place, op := PlaceOf(f).value, PacketValue(ViewFrom(x, outbound, loopback), f, index);
            if HeaderStart(x, HeaderOf(f)).None? then op.None?
            else op.Some? && op.value == Small(op.value.words[0]) &&
                 op.value.words[0] == BitField(HeaderBytes(x, HeaderOf(f)), place.bit, place.width)
  {
    hide BitField, BE16, BE32, FlagBits, ReadField, Reference, HeaderStart;
    var h := HeaderOf(f);
    HeadersAlike(x, outbound, loopback, h);
    if HeaderStart(x, h).Some? {
      ReadIsBits(HeaderBytes(x, h), f);
      ValueIsRead(x, outbound, loopback, f, index);
    }
  }

  lemma HeadersAlike(x: Input, outbound: bool, loopback: bool, h: Header)
    requires Laid(x) && h != NoHeader
    ensures HasHeader(ViewFrom(x, outbound, loopback), h) <==> HeaderStart(x, h).Some?
  {
    hide BE16, BE32, FlagBits, Words6;
  }

  lemma ValueIsRead(x: Input, outbound: bool, loopback: bool, f: Field, index: u32)
    requires Laid(x) && PlaceOf(f).Some? && HeaderStart(x, HeaderOf(f)).Some?
    ensures PacketValue(ViewFrom(x, outbound, loopback), f, index) ==
            Some(Small(ReadField(HeaderBytes(x, HeaderOf(f)), f)))
  {
    hide FlagBits, Words6;
    HeadersAlike(x, outbound, loopback, HeaderOf(f));
  }

  lemma SignedIs(n: i64)
    ensures Val(SignedValue(n).words) == Magnitude(n)
    ensures TypedValue(TIMESTAMP, SignedValue(n))
  {
    var m := Magnitude(n);
    assert m == m / B32 * B32 + m % B32;
    assert FieldBounds(TIMESTAMP) ==
           Some(Bounds(true, [0, 0x8000_0000, 0, 0], [0xFFFF_FFFF, 0x7FFF_FFFF, 0, 0], false));
    assert Val([0, 0x8000_0000, 0, 0]) == 0x8000_0000_0000_0000;
    assert Val([0xFFFF_FFFF, 0x7FFF_FFFF, 0, 0]) == 0x7FFF_FFFF_FFFF_FFFF;
  }

  lemma DataTyped(pkt: seq<u8>, min: nat, max: nat, index: u32, f: Field)
    requires max <= |pkt| && IsArray(f)
    ensures var op := ReadData(pkt, min, max, index, DataSize(f));
            op.Some? ==> TypedValue(f, op.value)
  {
    hide BE16, BE32, TypedValue;
    var op := ReadData(pkt, min, max, index, DataSize(f));
    if op.Some? {
      SmallTyped(f, op.value.words[0],
                 if DataSize(f) == 1 then 0xFF else if DataSize(f) == 2 then 0xFFFF else 0xFFFF_FFFF);
    }
  }

  lemma LengthTyped(n: u32)
    requires 20 <= n
    ensures TypedValue(LENGTH, Small(n)) <==> n <= 40 + 0xFFFF
  {
    assert Val([n, 0, 0, 0]) == n && Val([20, 0, 0, 0]) == 20 && Val([40 + 0xFFFF, 0, 0, 0]) == 40 + 0xFFFF;
  }

  lemma MetaTyped(x: Input, f: Field, index: u32)
    requires Laid(x) && f != LENGTH
    ensures var op := MetaValue(x, f, index);
            op.Some? ==> TypedValue(f, op.value)
  {
    hide TypedValue, ReadData, PayloadStart, PacketLength, SignedValue;
    var m := x.meta;
    if f == TIMESTAMP {
      SignedIs(m.timestamp);
    } else if IsArray(f) {
      DataTyped(x.pkt, 0, |x.pkt|, index, f);
      DataTyped(x.pkt, PayloadStart(x), PacketLength(x.pkt), index, f);
    } else if MetaValue(x, f, index).Some? {
      SmallMetaTyped(x, f, index);
    }
  }

  lemma SmallMetaTyped(x: Input, f: Field, index: u32)
    requires Laid(x) && f != LENGTH && f != TIMESTAMP && !IsArray(f) && MetaValue(x, f, index).Some?
    ensures TypedValue(f, MetaValue(x, f, index).value)
  {
    hide TypedValue, PayloadStart, PacketLength;
    var n := MetaValue(x, f, index).value.words[0];
    if f == IFIDX || f == SUBIFIDX || f == RANDOM32 { SmallTyped(f, n, 0xFFFF_FFFF); }
    else if f == IMPOSTOR || f == FRAGMENT { SmallTyped(f, n, 1); }
    else if f == RANDOM8 { SmallTyped(f, n, 0xFF); }
    else { SmallTyped(f, n, 0xFFFF); }
  }

  lemma OtherIsTyped(x: Input, f: Field, index: u32)
    ensures var op := OtherValue(x, f, index);
            && (op.Some? && (f == LENGTH ==> |x.pkt| <= 40 + 0xFFFF) ==> TypedValue(f, op.value))
            && (!IsArray(f) ==> op == OtherValue(x, f, 0))
  {
    hide TypedValue, ReadField, HeaderStart, PacketLength;
    if Laid(x) {
      if PlaceOf(f).Some? {
        if HeaderStart(x, HeaderOf(f)).Some? {
          PlacedTyped(HeaderBytes(x, HeaderOf(f)), f);
        }
      } else if f == LENGTH {
        LengthTyped(|x.pkt|);
      } else {
        MetaTyped(x, f, index);
      }
    }
  }

  /** A packet's fields are as the compiler assumes exactly when the packet is no longer than an IPv6 packet's
      header can say. */
  lemma PacketsAreTyped(x: Input, v: View)
    requires Laid(x) && v.PacketView? && v.other == OthersOf(x)
    ensures OthersTyped(v) <==> |x.pkt| <= 40 + 0xFFFF
  {
    hide TypedValue, OtherValue, Laid;
    if |x.pkt| <= 40 + 0xFFFF {
      forall f: Field, i: u32
        ensures v.other(f, i).Some? ==> TypedValue(f, v.other(f, i).value)
        ensures !IsArray(f) ==> v.other(f, i) == v.other(f, 0)
      {
        OtherIsTyped(x, f, i);
      }
    } else {
      LongUntyped(x);
      assert v.other(LENGTH, 0).Some? && !TypedValue(LENGTH, v.other(LENGTH, 0).value);
    }
  }

  lemma LongUntyped(x: Input)
    requires Laid(x) && |x.pkt| > 40 + 0xFFFF
    ensures OtherValue(x, LENGTH, 0).Some? && !TypedValue(LENGTH, OtherValue(x, LENGTH, 0).value)
  {
    hide TypedValue;
    LengthTyped(|x.pkt|);
  }

  lemma ReadTyped(x: Input, linear: nat, outbound: bool, loopback: bool)
    requires linear <= |x.pkt| < B32 && Layout(x.pkt, linear).Some? && Layout(x.pkt, linear).value.1 == x.off
    requires x.proto == Reference(x.pkt, Layout(x.pkt, linear).value.0, x.off).protocol
    ensures Layout(x.pkt, linear) == Some((x.proto, x.off))
    ensures OthersTyped(ViewOf(Reference(x.pkt, x.proto, x.off), outbound, loopback, OthersOf(x))) <==>
            |x.pkt| <= 40 + 0xFFFF
  {
    hide Layout, Laid, OthersTyped, OthersOf;
    RecognisedLaid(x, linear);
    PacketsAreTyped(x, ViewFrom(x, outbound, loopback));
  }

  /** The random fields are disjoint parts of the hash. */
  lemma RandomParts(x: Input)
    requires Laid(x)
    ensures var r8, r16, r32 := OtherValue(x, RANDOM8, 0), OtherValue(x, RANDOM16, 0), OtherValue(x, RANDOM32, 0);
            && r8.Some? && r16.Some? && r32.Some?
            && r8.value.words[0] * 0x1_0000_0000_0000 + r16.value.words[0] * B32 + r32.value.words[0] ==
               x.meta.random % 0x100_0000_0000_0000
  {
    hide ReadData, PayloadStart, PacketLength, ReadField, HeaderStart, Laid;
    var n: nat := x.meta.random;
    var hi, top := n / B32, n / 0x1_0000_0000_0000;
    assert hi / 0x1_0000 == top;
  }

  /** The payload's length is not cut to its sixteen bits. */
  lemma PayloadFits(x: Input)
    requires Laid(x)
    ensures PayloadStart(x) <= PacketLength(x.pkt) <= PayloadStart(x) + 0xFFFF - Needs(x.proto)
  {
    hide BE16;
  }

  /** What comes with a FLOW or SOCKET event. */
  datatype EventMeta = EventMeta(endpoint: u64, parent: u64, timestamp: i64, outbound: bool, loopback: bool, ipv4: bool)

  function EventOther(m: EventMeta, protocol: u8, f: Field): Option<Operand> {
    if f == INBOUND then Some(Bool(!m.outbound))
    else if f == OUTBOUND then Some(Bool(m.outbound))
    else if f == LOOPBACK then Some(Bool(m.loopback))
    else if f == ICMP then Some(Bool(m.ipv4 && protocol == IPPROTO_ICMP))
    else if f == ICMPV6 then Some(Bool(!m.ipv4 && protocol == IPPROTO_ICMPV6))
    else if f == ENDPOINTID then Some(Big([m.endpoint % B32, m.endpoint / B32, 0, 0]))
    else if f == PARENTENDPOINTID then Some(Big([m.parent % B32, m.parent / B32, 0, 0]))
    else if f == TIMESTAMP then Some(SignedValue(m.timestamp))
    else None
  }

  function EventOthersOf(m: EventMeta, protocol: u8): Others {
    (f: Field, index: u32) => EventOther(m, protocol, f)
  }

  lemma IdTyped(f: Field, n: u64)
    requires f == ENDPOINTID || f == PARENTENDPOINTID
    ensures TypedValue(f, Big([n % B32, n / B32, 0, 0]))
  {
    assert FieldBounds(f) == Some(Bounds(false, ZEROES, [0xFFFF_FFFF, 0xFFFF_FFFF, 0, 0], false));
    assert Val([0xFFFF_FFFF, 0xFFFF_FFFF, 0, 0]) == 0xFFFF_FFFF_FFFF_FFFF && Val(ZEROES) == 0;
    assert Val([n % B32, n / B32, 0, 0]) == n;
  }

  lemma EventOtherTyped(m: EventMeta, protocol: u8, f: Field)
    ensures EventOther(m, protocol, f).Some? ==> TypedValue(f, EventOther(m, protocol, f).value)
  {
    hide TypedValue, SignedValue;
    if f == ENDPOINTID || f == PARENTENDPOINTID {
      IdTyped(f, m.endpoint);
      IdTyped(f, m.parent);
    } else if f == TIMESTAMP {
      SignedIs(m.timestamp);
    } else if EventOther(m, protocol, f).Some? {
      SmallTyped(f, EventOther(m, protocol, f).value.words[0], 1);
    }
  }

  /** An event's fields are as the compiler assumes exactly when its event code is one of the ten. */
  lemma EventsAreTyped(m: EventMeta, v: View)
    requires v.EventView? && v.other == EventOthersOf(m, v.protocol)
    ensures OthersTyped(v) <==> v.event <= 9
  {
    hide TypedValue, EventOther;
    forall f: Field, i: u32
      ensures v.other(f, i).Some? ==> TypedValue(f, v.other(f, i).value)
      ensures !IsArray(f) ==> v.other(f, i) == v.other(f, 0)
      ensures HeaderOf(f) != NoHeader ==> v.other(f, i).None?
    {
      EventOtherTyped(m, v.protocol, f);
      EventHeaderless(m, v.protocol, f);
    }
  }

  lemma EventHeaderless(m: EventMeta, protocol: u8, f: Field)
    ensures HeaderOf(f) != NoHeader ==> EventOther(m, protocol, f).None?
  {
  }
}
