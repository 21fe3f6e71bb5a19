/** Packets written byte by byte, the most significant byte first, and read back by the parsers. */
module Wire {
  import opened Words
  import opened Fields
  import opened Filter
  import opened Bits
  import opened Rules
  import opened Packets
  import Cube

  function Hi(x: u16): u8 { x / 0x100 }

  function Lo(x: u16): u8 { x % 0x100 }

  /** The named flags of byte 13 of a TCP header. */
  datatype TcpFlags = TcpFlags(fin: bool, syn: bool, rst: bool, psh: bool, ack: bool, urg: bool, ece: bool, cwr: bool)

  function One(b: bool): nat { if b then 1 else 0 }

  function FlagsByte(f: TcpFlags): u8 {
    One(f.fin) + 2 * One(f.syn) + 4 * One(f.rst) + 8 * One(f.psh) + 16 * One(f.ack) + 32 * One(f.urg)
    + 64 * One(f.ece) + 128 * One(f.cwr)
  }

  predicate Named(f: TcpFlags, field: Field)
    requires IsTcpFlag(field)
  {
    if field == TCP_FIN then f.fin
    else if field == TCP_SYN then f.syn
    else if field == TCP_RST then f.rst
    else if field == TCP_PSH then f.psh
    else if field == TCP_ACK then f.ack
    else f.urg
  }

  /** What a packet carries behind its IP headers. */
  datatype Segment =
    | TcpSegment(src: u16, dst: u16, number: u32, acked: u32, flags: TcpFlags, window: u16, checksum: u16, urgent: u16,
                 options: seq<u8>, data: seq<u8>)
    | UdpDatagram(src: u16, dst: u16, checksum: u16, data: seq<u8>)
    | IcmpMessage(kind: u8, code: u8, checksum: u16, body: u32, data: seq<u8>)
    | AnyOther(protocol: u8, data: seq<u8>)

  predicate SegmentValid(s: Segment) {
    match s
    case TcpSegment(_, _, _, _, _, _, _, _, options, _) => |options| % 4 == 0 && |options| <= 40
    case UdpDatagram(_, _, _, data) => |data| + 8 <= 0xFFFF
    case IcmpMessage(_, _, _, _, _) => true
    case AnyOther(protocol, _) =>
      && Needs(protocol) == 0 && !IsExtension(protocol)
  }

  function ProtocolOf(s: Segment, ver: nat): u8 {
    match s
    case TcpSegment(_, _, _, _, _, _, _, _, _, _) => IPPROTO_TCP
    case UdpDatagram(_, _, _, _) => IPPROTO_UDP
    case IcmpMessage(_, _, _, _, _) => if ver == 4 then IPPROTO_ICMP else IPPROTO_ICMPV6
    case AnyOther(protocol, _) => protocol
  }

  function TcpHeader(s: Segment): (b: seq<u8>)
    requires s.TcpSegment? && SegmentValid(s)
    ensures |b| == 20
  {
    [Hi(s.src), Lo(s.src), Hi(s.dst), Lo(s.dst)] + WordBytes(s.number) + WordBytes(s.acked)
    + [(5 + |s.options| / 4) * 16, FlagsByte(s.flags), Hi(s.window), Lo(s.window),
       Hi(s.checksum), Lo(s.checksum), Hi(s.urgent), Lo(s.urgent)]
  }

  function SegmentBytes(s: Segment): seq<u8>
    requires SegmentValid(s)
  {
    match s
    case TcpSegment(_, _, _, _, _, _, _, _, options, data) => TcpHeader(s) + (options + data)
    case UdpDatagram(src, dst, checksum, data) =>
      var length: u16 := 8 + |data|;
      [Hi(src), Lo(src), Hi(dst), Lo(dst), Hi(length), Lo(length), Hi(checksum), Lo(checksum)] + data
    case IcmpMessage(kind, code, checksum, body, data) =>
      [kind, code, Hi(checksum), Lo(checksum)] + (WordBytes(body) + data)
    case AnyOther(_, data) => data
  }

  /** The transport header the evaluator should see. */
  function Seen(s: Segment, ver: nat, flags: Flags): Transport {
    match s
    case TcpSegment(src, dst, _, _, _, _, _, _, _, _) => Tcp(src, dst, flags)
    case UdpDatagram(src, dst, _, _) => Udp(src, dst)
    case IcmpMessage(kind, code, _, _, _) => if ver == 4 then Icmp(kind, code) else Icmpv6(kind, code)
    case AnyOther(_, _) => Missing
  }

  /** An IPv4 packet that is not a fragment. */
  datatype Packet4 = Packet4(tos: u8, id: u16, df: bool, ttl: u8, checksum: u16, src: u32, dst: u32,
                             options: seq<u8>, segment: Segment)

  function Length4(p: Packet4): nat
    requires SegmentValid(p.segment)
  {
    20 + |p.options| + |SegmentBytes(p.segment)|
  }

  predicate Valid4(p: Packet4) {
    && SegmentValid(p.segment) && |p.options| % 4 == 0 && |p.options| <= 40 && Length4(p) <= 0xFFFF
  }

  function Header4(p: Packet4): (b: seq<u8>)
    requires Valid4(p)
    ensures |b| == 20
  {
    var length: u16 := Length4(p);
    [0x40 + 5 + |p.options| / 4, p.tos, Hi(length), Lo(length),
     Hi(p.id), Lo(p.id), if p.df then 0x40 else 0, 0, p.ttl, ProtocolOf(p.segment, 4), Hi(p.checksum), Lo(p.checksum)]
    + (WordBytes(p.src) + WordBytes(p.dst))
  }

  function Bytes4(p: Packet4): seq<u8>
    requires Valid4(p)
  {
    Header4(p) + (p.options + SegmentBytes(p.segment))
  }

  /** An option header of section 4 of RFC 8200. */
  datatype Extension = Extension(kind: u8, content: seq<u8>)

  predicate ExtensionValid(e: Extension) {
    IsOption(e.kind) && (|e.content| + 2) % 8 == 0 && |e.content| + 2 <= 255 * 8
  }

  datatype Packet6 = Packet6(trafficClass: u8, flowLabel: nat, hopLimit: u8, src: Words, dst: Words,
                             extensions: seq<Extension>, segment: Segment)

  function FirstKind(exts: seq<Extension>, protocol: u8): u8 {
    if exts == [] then protocol else exts[0].kind
  }

  function ExtensionBytes(exts: seq<Extension>, protocol: u8): seq<u8>
    requires forall i :: 0 <= i < |exts| ==> ExtensionValid(exts[i])
  {
    if exts == [] then []
    else
      assert ExtensionValid(exts[0]);
      var units: u8 := (|exts[0].content| + 2) / 8 - 1;
      [FirstKind(exts[1..], protocol), units] + (exts[0].content + ExtensionBytes(exts[1..], protocol))
  }

  predicate Valid6(p: Packet6) {
    && SegmentValid(p.segment) && p.flowLabel < 0x10_0000 && |p.extensions| <= 4
    && (forall i :: 0 <= i < |p.extensions| ==> ExtensionValid(p.extensions[i]))
    && |Body6(p)| <= 0xFFFF
  }

  function Body6(p: Packet6): seq<u8>
    requires SegmentValid(p.segment)
    requires forall i :: 0 <= i < |p.extensions| ==> ExtensionValid(p.extensions[i])
  {
    ExtensionBytes(p.extensions, ProtocolOf(p.segment, 6)) + SegmentBytes(p.segment)
  }

  function Header6(p: Packet6): (b: seq<u8>)
    requires Valid6(p)
    ensures |b| == 40
  {
    var length: u16, traffic: nat := |Body6(p)|, p.trafficClass;
    [0x60 + traffic / 16, traffic % 16 * 16 + p.flowLabel / 0x1_0000, p.flowLabel / 0x100 % 0x100, p.flowLabel % 0x100,
     Hi(length), Lo(length), FirstKind(p.extensions, ProtocolOf(p.segment, 6)), p.hopLimit]
    + (ToNet(p.src) + ToNet(p.dst))
  }

  function Bytes6(p: Packet6): seq<u8>
    requires Valid6(p)
  {
    Header6(p) + Body6(p)
  }

  /** Reading four bytes undoes writing them. */
  lemma ReadWord(b: seq<u8>, i: nat, x: u32)
    requires i + 4 <= |b| && b[i..i + 4] == WordBytes(x)
    ensures BE32(b, i) == x
  {
    var s := b[i..i + 4];
    assert b[i] == s[0] && b[i + 1] == s[1] && b[i + 2] == s[2] && b[i + 3] == s[3];
    var x0: nat, x1: nat, x2: nat, x3: nat := b[i], b[i + 1], b[i + 2], b[i + 3];
    assert x0 == x / 0x100_0000 && x1 == x / 0x1_0000 % 0x100 && x2 == x / 0x100 % 0x100 && x3 == x % 0x100;
    assert x / 0x100 == x / 0x1_0000 * 0x100 + x2;
    assert x / 0x1_0000 == x0 * 0x100 + x1;
  }

  /** And writing undoes reading. */
  lemma WriteWord(b: seq<u8>, i: nat)
    requires i + 4 <= |b|
    ensures WordBytes(BE32(b, i)) == b[i..i + 4]
  {
    var x0: nat, x1: nat, x2: nat, x3: nat := b[i], b[i + 1], b[i + 2], b[i + 3];
    var x := BE32(b, i);
    assert x == ((x0 * 0x100 + x1) * 0x100 + x2) * 0x100 + x3;
    assert x / 0x100 == (x0 * 0x100 + x1) * 0x100 + x2;
    assert x / 0x1_0000 == x0 * 0x100 + x1;
    assert x / 0x100_0000 == x0;
  }

  /** The words the parsers read are the bytes the kernel compares. */
  lemma AddressBytes(b: seq<u8>, i: nat)
    requires i + 16 <= |b|
    ensures ToNet(Words6(b, i)) == b[i..i + 16]
  {
    hide WordBytes, BE32;
    WriteWord(b, i);
    WriteWord(b, i + 4);
    WriteWord(b, i + 8);
    WriteWord(b, i + 12);
    assert b[i..i + 16] == b[i..i + 4] + b[i + 4..i + 8] + b[i + 8..i + 12] + b[i + 12..i + 16];
  }

  lemma ReadAddress(b: seq<u8>, i: nat, w: Words)
    requires i + 16 <= |b| && b[i..i + 16] == ToNet(w)
    ensures Words6(b, i) == w
  {
    hide WordBytes, BE32;
    var s := b[i..i + 16];
    assert b[i..i + 4] == s[..4] == WordBytes(w[3]);
    assert b[i + 4..i + 8] == s[4..8] == WordBytes(w[2]);
    assert b[i + 8..i + 12] == s[8..12] == WordBytes(w[1]);
    assert b[i + 12..i + 16] == s[12..16] == WordBytes(w[0]);
    ReadWord(b, i, w[3]);
    ReadWord(b, i + 4, w[2]);
    ReadWord(b, i + 8, w[1]);
    ReadWord(b, i + 12, w[0]);
  }

  lemma ReadShort(b: seq<u8>, i: nat, x: u16)
    requires i + 2 <= |b| && b[i] == Hi(x) && b[i + 1] == Lo(x)
    ensures BE16(b, i) == x
  {
  }

  /** Every named flag is the one its position in the byte says. */
  lemma FlagsRead(f: TcpFlags, field: Field)
    requires IsTcpFlag(field)
    ensures TcpFlagBit(field) in FlagBits(FlagsByte(f)) <==> Named(f, field)
  {
    FlagHalves(f);
    hide FlagsByte;
  }

  lemma FlagHalves(f: TcpFlags)
    ensures var n: nat := FlagsByte(f);
            && n % 2 == One(f.fin) && n / 2 % 2 == One(f.syn) && n / 4 % 2 == One(f.rst)
            && n / 8 % 2 == One(f.psh) && n / 16 % 2 == One(f.ack) && n / 32 % 2 == One(f.urg)
  {
    EightBits(One(f.fin), One(f.syn), One(f.rst), One(f.psh), One(f.ack), One(f.urg), One(f.ece) + 2 * One(f.cwr));
  }

  lemma EightBits(a: nat, b: nat, c: nat, d: nat, e: nat, f: nat, rest: nat)
    requires a < 2 && b < 2 && c < 2 && d < 2 && e < 2 && f < 2
    ensures var n := a + 2 * b + 4 * c + 8 * d + 16 * e + 32 * f + 64 * rest;
            n % 2 == a && n / 2 % 2 == b && n / 4 % 2 == c && n / 8 % 2 == d && n / 16 % 2 == e && n / 32 % 2 == f
  {
    var n5 := f + 2 * rest;
    var n4 := e + 2 * n5;
    var n3 := d + 2 * n4;
    var n2 := c + 2 * n3;
    var n1 := b + 2 * n2;
    var n := a + 2 * n1;
    Halve(a, n1, n, 1);
    Halve(b, n2, n, 2);
    Halve(c, n3, n, 4);
    Halve(d, n4, n, 8);
    Halve(e, n5, n, 16);
    Halve(f, rest, n, 32);
  }

  /** If `n / d` ends in the bit `b` in front of `rest`, halving once more leaves `rest`. */
  lemma Halve(b: nat, rest: nat, n: nat, d: nat)
    requires 0 < d && b < 2 && n / d == b + 2 * rest
    ensures n / d % 2 == b && n / (2 * d) == rest
  {
    DivDiv(n, d, 2);
    assert d * 2 == 2 * d;
  }

  /** `b` stands in `pkt` from `off` on, with nothing but the rest of the packet behind it. */
  predicate EndsWith(pkt: seq<u8>, off: nat, b: seq<u8>) {
    off + |b| == |pkt| && pkt[off..] == b
  }

  /** A written segment is read as what it was written from. */
  lemma SegmentRead(pkt: seq<u8>, off: nat, s: Segment, ver: nat)
    requires SegmentValid(s) && EndsWith(pkt, off, SegmentBytes(s)) && (ver == 4 || ver == 6)
    ensures off + Needs(ProtocolOf(s, ver)) <= |pkt|
    ensures s.TcpSegment? ==> pkt[off + 12] as int / 16 == 5 + |s.options| / 4
    ensures ReferenceTransport(pkt, ProtocolOf(s, ver), off, ver) ==
            Seen(s, ver, if s.TcpSegment? then FlagBits(FlagsByte(s.flags)) else {})
  {
    hide WordBytes, FlagsByte, FlagBits;
    var b := SegmentBytes(s);
    match s
    case TcpSegment(src, dst, number, acked, flags, _, _, _, options, data) =>
      TcpRead(pkt, off, s);
    case UdpDatagram(src, dst, _, _) =>
      ReadAt(pkt, off, b, 0);
      ReadAt(pkt, off, b, 1);
      ReadAt(pkt, off, b, 2);
      ReadAt(pkt, off, b, 3);
      ReadShort(pkt, off, src);
      ReadShort(pkt, off + 2, dst);
    case IcmpMessage(_, _, _, _, _) =>
      ReadAt(pkt, off, b, 0);
      ReadAt(pkt, off, b, 1);
    case AnyOther(_, _) =>
  }

  lemma ReadAt(pkt: seq<u8>, off: nat, b: seq<u8>, k: nat)
    requires EndsWith(pkt, off, b) && k < |b|
    ensures pkt[off + k] == b[k]
  {
    assert pkt[off..][k] == pkt[off + k];
  }

  lemma TcpRead(pkt: seq<u8>, off: nat, s: Segment)
    requires s.TcpSegment? && SegmentValid(s) && EndsWith(pkt, off, SegmentBytes(s))
    ensures off + 20 <= |pkt|
    ensures BE16(pkt, off) == s.src && BE16(pkt, off + 2) == s.dst && pkt[off + 13] == FlagsByte(s.flags)
    ensures pkt[off + 12] as int / 16 == 5 + |s.options| / 4
  {
    hide WordBytes, FlagsByte, FlagBits, BE16;
    var b := SegmentBytes(s);
    ReadAt(pkt, off, b, 0);
    ReadAt(pkt, off, b, 1);
    ReadAt(pkt, off, b, 2);
    ReadAt(pkt, off, b, 3);
    ReadAt(pkt, off, b, 12);
    ReadAt(pkt, off, b, 13);
    ReadShort(pkt, off, s.src);
    ReadShort(pkt, off + 2, s.dst);
  }

  lemma Header4Read(p: Packet4)
    requires Valid4(p)
    ensures var pkt := Bytes4(p);
            && |pkt| == Length4(p) == BE16(pkt, 2) && BE16(pkt, 6) % 0x4000 == 0
            && pkt[0] as int / 16 == 4 && pkt[0] as int % 16 * 4 == 20 + |p.options|
            && pkt[8] == p.ttl && pkt[9] == ProtocolOf(p.segment, 4)
            && BE32(pkt, 12) == p.src && BE32(pkt, 16) == p.dst
            && EndsWith(pkt, 20 + |p.options|, SegmentBytes(p.segment))
  {
    hide WordBytes, BE16, BE32, SegmentBytes;
    var pkt, h := Bytes4(p), Header4(p);
    assert forall k :: 0 <= k < 20 ==> pkt[k] == h[k];
    ReadShort(pkt, 2, Length4(p));
    Fragment4(pkt, p.df);
    assert h[12..16] == WordBytes(p.src) && h[16..20] == WordBytes(p.dst);
    assert pkt[12..16] == h[12..16] && pkt[16..20] == h[16..20];
    ReadWord(pkt, 12, p.src);
    ReadWord(pkt, 16, p.dst);
  }

  /** An IPv4 packet is laid out as written: the parsers' layout finds its transport header, and the
      reference reads the values it was written from. */
  lemma Written4(p: Packet4, linear: nat)
    requires Valid4(p)
    requires 20 + |p.options| + Needs(ProtocolOf(p.segment, 4)) <= linear <= |Bytes4(p)|
    ensures var pkt, proto, off := Bytes4(p), ProtocolOf(p.segment, 4), 20 + |p.options|;
            && Layout(pkt, linear) == Some((proto, off))
            && Reference(pkt, proto, off) ==
               Headers(false, V4(p.ttl, proto, p.src, p.dst), proto,
                       Seen(p.segment, 4, if p.segment.TcpSegment? then FlagBits(FlagsByte(p.segment.flags)) else {}))
  {
    hide FlagsByte, FlagBits, BE16, BE32, SegmentBytes, ReferenceTransport, Bytes4, EndsWith;
    Header4Read(p);
    SegmentRead(Bytes4(p), 20 + |p.options|, p.segment, 4);
  }

  lemma Fragment4(pkt: seq<u8>, df: bool)
    requires 8 <= |pkt| && pkt[6] == (if df then 0x40 else 0) && pkt[7] == 0
    ensures BE16(pkt, 6) % 0x4000 == 0
  {
  }

  /** The parsers step over written option headers to the transport header. */
  lemma {:induction false} FollowWritten(pkt: seq<u8>, limit: nat, exts: seq<Extension>, protocol: u8, off: nat, n: nat,
                                         rest: seq<u8>)
    requires limit <= |pkt| && |exts| <= n && !IsExtension(protocol)
    requires forall i :: 0 <= i < |exts| ==> ExtensionValid(exts[i])
    requires EndsWith(pkt, off, ExtensionBytes(exts, protocol) + rest)
    requires off + |ExtensionBytes(exts, protocol)| <= limit
    ensures Follow(pkt, limit, FirstKind(exts, protocol), off, n) ==
            Some((protocol, off + |ExtensionBytes(exts, protocol)|))
  {
    hide ExtensionBytes, EndsWith, Follow;
    if exts == [] {
      NoExtensions(protocol);
      FollowEnd(pkt, limit, protocol, off, n);
    } else {
      var size := |exts[0].content| + 2;
      FirstExtension(pkt, off, exts, protocol, rest);
      FollowWritten(pkt, limit, exts[1..], protocol, off + size, n - 1, rest);
      FollowOption(pkt, limit, exts[0].kind, off, n);
    }
  }

  lemma NoExtensions(protocol: u8)
    ensures ExtensionBytes([], protocol) == [] && FirstKind([], protocol) == protocol
  {
  }

  lemma FollowOption(pkt: seq<u8>, limit: nat, proto: u8, off: nat, n: nat)
    requires limit <= |pkt| && 0 < n && IsOption(proto) && off + 8 <= limit
    requires pkt[off + 1] != 0xFF && off + OptionLength(pkt[off + 1]) <= limit
    ensures Follow(pkt, limit, proto, off, n) == Follow(pkt, limit, pkt[off], off + OptionLength(pkt[off + 1]), n - 1)
  {
  }

  lemma FirstExtension(pkt: seq<u8>, off: nat, exts: seq<Extension>, protocol: u8, rest: seq<u8>)
    requires exts != [] && forall i :: 0 <= i < |exts| ==> ExtensionValid(exts[i])
    requires EndsWith(pkt, off, ExtensionBytes(exts, protocol) + rest)
    ensures var size := |exts[0].content| + 2;
            && 8 <= size && |ExtensionBytes(exts, protocol)| == size + |ExtensionBytes(exts[1..], protocol)|
            && pkt[off] == FirstKind(exts[1..], protocol) && pkt[off + 1] != 0xFF && OptionLength(pkt[off + 1]) == size
            && EndsWith(pkt, off + size, ExtensionBytes(exts[1..], protocol) + rest) && IsOption(exts[0].kind)
  {
    var first, more := exts[0], ExtensionBytes(exts[1..], protocol);
    assert ExtensionValid(first);
    var b := ExtensionBytes(exts, protocol) + rest;
    var size := |first.content| + 2;
    ReadAt(pkt, off, b, 0);
    ReadAt(pkt, off, b, 1);
    assert b[size..] == more + rest;
    assert pkt[off + size..] == pkt[off..][size..];
  }

  /** The same for an IPv6 packet, behind up to four option headers. */
  lemma Written6(p: Packet6, linear: nat)
    requires Valid6(p)
    requires 40 + |ExtensionBytes(p.extensions, ProtocolOf(p.segment, 6))| + Needs(ProtocolOf(p.segment, 6)) <= linear
    requires linear <= |Bytes6(p)|
    ensures var pkt, proto := Bytes6(p), ProtocolOf(p.segment, 6);
            var off := 40 + |ExtensionBytes(p.extensions, proto)|;
            && Layout(pkt, linear) == Some((proto, off))
            && Reference(pkt, proto, off) ==
               Headers(false, V6(p.hopLimit, p.src, p.dst), proto,
                       Seen(p.segment, 6, if p.segment.TcpSegment? then FlagBits(FlagsByte(p.segment.flags)) else {}))
  {
    hide WordBytes, FlagsByte, FlagBits, BE16, BE32, SegmentBytes, ReferenceTransport, ExtensionBytes, Follow, ToNet;
    var pkt, proto := Bytes6(p), ProtocolOf(p.segment, 6);
    var exts := ExtensionBytes(p.extensions, proto);
    var off := 40 + |exts|;
    var h := Header6(p);
    assert forall k :: 0 <= k < 40 ==> pkt[k] == h[k];
    assert pkt[40..] == exts + SegmentBytes(p.segment);
    assert pkt[off..] == SegmentBytes(p.segment);
    SegmentRead(pkt, off, p.segment, 6);
    ReadShort(pkt, 4, |Body6(p)|);
    NotExtension(p.segment);
    FollowWritten(pkt, linear, p.extensions, proto, 40, 4, SegmentBytes(p.segment));
    assert h[8..24] == ToNet(p.src) && h[24..40] == ToNet(p.dst);
    assert pkt[8..24] == h[8..24] && pkt[24..40] == h[24..40];
    ReadAddress(pkt, 8, p.src);
    ReadAddress(pkt, 24, p.dst);
  }

  lemma NotExtension(s: Segment)
    requires SegmentValid(s)
    ensures !IsExtension(ProtocolOf(s, 4)) && !IsExtension(ProtocolOf(s, 6))
  {
  }

  /** So a written packet is offered to a filter with the values it was written from: both parsers
      agree on them, whatever the kernel can read directly. */
  method ReadWritten4(p: Packet4, linear: nat) returns (k: Option<Parsed>, u: Option<Headers>)
    requires Valid4(p)
    requires 20 + |p.options| + Needs(ProtocolOf(p.segment, 4)) <= linear <= |Bytes4(p)|
    ensures k.Some? && u.Some? && SamePacket(k.value, u.value)
    ensures u.value.ip == V4(p.ttl, ProtocolOf(p.segment, 4), p.src, p.dst)
    ensures u.value.protocol == ProtocolOf(p.segment, 4)
    ensures k.value.src == MappedWords(p.src) && k.value.dst == MappedWords(p.dst) && k.value.ttl == p.ttl
    ensures p.segment.TcpSegment? ==>
              && u.value.transport.Tcp? && u.value.transport.srcPort == p.segment.src
              && u.value.transport.dstPort == p.segment.dst
              && (forall f: Field :: IsTcpFlag(f) ==>
                    (TcpFlagBit(f) in u.value.transport.flags <==> Named(p.segment.flags, f)))
              && k.value.sport == p.segment.src && k.value.dport == p.segment.dst
              && k.value.tcpFlags == u.value.transport.flags
    ensures p.segment.UdpDatagram? ==> u.value.transport == Udp(p.segment.src, p.segment.dst)
    ensures p.segment.IcmpMessage? ==> u.value.transport == Icmp(p.segment.kind, p.segment.code)
  {
    hide Layout, Reference, Bytes4, FlagBits, FlagsByte, Valid4, Cube.AgreeingTransport;
    Written4(p, linear);
    k := KernelParse(Bytes4(p), linear);
    var off;
    u, off := UserParse(Bytes4(p), linear);
    SameValues(k.value, u.value);
    if p.segment.TcpSegment? {
      forall f: Field | IsTcpFlag(f)
        ensures TcpFlagBit(f) in FlagBits(FlagsByte(p.segment.flags)) <==> Named(p.segment.flags, f)
      {
        FlagsRead(p.segment.flags, f);
      }
    }
  }

  lemma SameValues(k: Parsed, u: Headers)
    requires SamePacket(k, u)
    ensures k.src == u.ip.Src() && k.dst == u.ip.Dst() && k.proto == u.protocol
    ensures k.ttl == if u.ip.V4? then u.ip.ttl else u.ip.hopLimit
    ensures u.transport.Tcp? ==>
              k.sport == u.transport.srcPort && k.dport == u.transport.dstPort && k.tcpFlags == u.transport.flags
    ensures u.transport.Udp? ==> k.sport == u.transport.srcPort && k.dport == u.transport.dstPort
  {
    var other: Others := (f, i) => None;
    assert Cube.AgreeingPacket(Cube.Subject(ViewOf(u, true, false, other), AttrsOf(k, true, false)));
  }
}
