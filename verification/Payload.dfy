/** The byte array fields: what an index means, and that the payload of a written packet is read back. */
module Payload {
  import opened Words
  import opened Fields
  import opened Filter
  import opened Packets
  import opened Rules
  import opened Wire
  import opened HeaderFields
  import opened Values

  /** The data of a packet is its big-endian bits. */
  lemma DataIsBits(pkt: seq<u8>, min: nat, max: nat, index: u32, size: nat)
    requires max <= |pkt| && index < 0x8000_0000 && ReadData(pkt, min, max, index, size).Some?
    ensures min + index + size <= max
    ensures var op := ReadData(pkt, min, max, index, size).value;
            op == Small(op.words[0]) && op.words[0] == BitField(pkt, 8 * (min + index), 8 * size)
  {
    hide BitField, BE16, BE32;
    if size == 1 {
      ByteField(pkt, min + index);
    } else if size == 2 {
      ShortField(pkt, min + index);
    } else {
      LongField(pkt, min + index);
    }
  }

  /** Data of a payload is data of the payload's bytes alone. */
  lemma DataOfSlice(pkt: seq<u8>, min: nat, max: nat, index: u32, size: nat)
    requires min <= max <= |pkt|
    ensures ReadData(pkt, min, max, index, size) == ReadData(pkt[min..max], 0, max - min, index, size)
  {
  }

  /** A negative index counts from the end. */
  lemma DataFromEnd(pkt: seq<u8>, min: nat, max: nat, back: nat, size: nat)
    requires min <= max <= |pkt| && 0 < back <= max - min < 0x8000_0000
    ensures ReadData(pkt, min, max, B32 - back, size) == ReadData(pkt, min, max, max - min - back, size)
  {
    hide BE16, BE32;
  }

  /** Behind the transport header of a written segment comes its data. */
  lemma SegmentPayload(x: Input, s: Segment)
    requires Laid(x) && PacketLength(x.pkt) == |x.pkt|
    requires SegmentValid(s) && EndsWith(x.pkt, x.off, SegmentBytes(s))
    requires (s.TcpSegment? && x.proto == IPPROTO_TCP) || (s.UdpDatagram? && x.proto == IPPROTO_UDP)
    ensures PayloadStart(x) <= |x.pkt| && x.pkt[PayloadStart(x)..] == s.data
  {
    hide WordBytes, FlagsByte, FlagBits, BE16, BE32, PacketLength, Wire.TcpHeader;
    var b := SegmentBytes(s);
    var n := |b| - |s.data|;
    if s.TcpSegment? {
      SegmentRead(x.pkt, x.off, s, 4);
      assert n == 20 + |s.options|;
    }
    assert b[n..] == s.data;
    assert x.pkt[x.off + n..] == x.pkt[x.off..][n..];
  }

  lemma SegmentLong(s: Segment, ver: nat)
    requires SegmentValid(s)
    ensures Needs(Wire.ProtocolOf(s, ver)) <= |SegmentBytes(s)|
  {
    hide WordBytes, FlagsByte;
  }

  lemma Length4Read(p: Packet4)
    requires Valid4(p)
    ensures PacketLength(Bytes4(p)) == |Bytes4(p)|
    ensures EndsWith(Bytes4(p), 20 + |p.options|, SegmentBytes(p.segment))
  {
    hide SegmentBytes, Bytes4, BE16, BE32;
    Header4Read(p);
  }

  lemma Length6Read(p: Packet6)
    requires Valid6(p)
    ensures PacketLength(Bytes6(p)) == |Bytes6(p)|
    ensures var off := 40 + |ExtensionBytes(p.extensions, Wire.ProtocolOf(p.segment, 6))|;
            EndsWith(Bytes6(p), off, SegmentBytes(p.segment))
  {
    hide SegmentBytes, WordBytes, BE16, ExtensionBytes, ToNet;
    var pkt, h := Bytes6(p), Header6(p);
    assert forall k :: 0 <= k < 40 ==> pkt[k] == h[k];
    ReadShort(pkt, 4, |Body6(p)|);
  }

  /** The payload fields of a written packet are its data: of an IPv4 packet, and of an IPv6 packet. */
  lemma Payload4(p: Packet4, meta: Meta)
    requires Valid4(p) && (p.segment.TcpSegment? || p.segment.UdpDatagram?)
    ensures var x := Input(Bytes4(p), Wire.ProtocolOf(p.segment, 4), 20 + |p.options|, meta);
            && Laid(x) && PayloadStart(x) <= PacketLength(x.pkt)
            && x.pkt[PayloadStart(x)..PacketLength(x.pkt)] == p.segment.data
  {
    hide SegmentBytes, Bytes4, Layout, Laid, PacketLength, Reference;
    var x := Input(Bytes4(p), Wire.ProtocolOf(p.segment, 4), 20 + |p.options|, meta);
    Length4Read(p);
    SegmentLong(p.segment, 4);
    Written4(p, |x.pkt|);
    assert |x.pkt| < B32 by { ShortPacket4(p); }
    RecognisedLaid(x, |x.pkt|);
    SegmentPayload(x, p.segment);
  }

  lemma ShortPacket4(p: Packet4)
    requires Valid4(p)
    ensures |Bytes4(p)| <= 0xFFFF
  {
  }

  lemma ShortPacket6(p: Packet6)
    requires Valid6(p)
    ensures |Bytes6(p)| <= 40 + 0xFFFF
  {
  }

  lemma Payload6(p: Packet6, meta: Meta)
    requires Valid6(p) && (p.segment.TcpSegment? || p.segment.UdpDatagram?)
    ensures var proto := Wire.ProtocolOf(p.segment, 6);
            var x := Input(Bytes6(p), proto, 40 + |ExtensionBytes(p.extensions, proto)|, meta);
            && Laid(x) && PayloadStart(x) <= PacketLength(x.pkt)
            && x.pkt[PayloadStart(x)..PacketLength(x.pkt)] == p.segment.data
  {
    hide SegmentBytes, Bytes6, ExtensionBytes, Layout, Laid, PacketLength, Reference;
    var proto := Wire.ProtocolOf(p.segment, 6);
    var x := Input(Bytes6(p), proto, 40 + |ExtensionBytes(p.extensions, proto)|, meta);
    Length6Read(p);
    SegmentLong(p.segment, 6);
    Written6(p, |x.pkt|);
    assert |x.pkt| < B32 by { ShortPacket6(p); }
    RecognisedLaid(x, |x.pkt|);
    SegmentPayload(x, p.segment);
  }

  /** So `tcp.Payload[i]` and `udp.Payload[i]` are byte `i` of what was sent, and so on for wider elements. */
  lemma PayloadFields(x: Input, data: seq<u8>, f: Field, index: u32)
    requires Laid(x) && PayloadStart(x) <= PacketLength(x.pkt)
    requires x.pkt[PayloadStart(x)..PacketLength(x.pkt)] == data
    requires TCP_PAYLOAD <= f <= UDP_PAYLOAD32 && HeaderStart(x, HeaderOf(f)).Some?
    ensures OtherValue(x, f, index) == ReadData(data, 0, |data|, index, DataSize(f))
  {
    hide ReadData, PayloadStart, PacketLength, HeaderStart, ReadField;
    DataOfSlice(x.pkt, PayloadStart(x), PacketLength(x.pkt), index, DataSize(f));
  }
}
