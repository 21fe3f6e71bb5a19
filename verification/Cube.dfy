/** Cubes: the conjunctions the lowering carries along a path of the filter. */
module Cube {
  import opened Words
  import opened Fields
  import opened Filter
  import Range
  import Addr

  /** What the kernel side knows of a packet (or socket event, where `src` is the
      local and `dst` the remote end) when it matches rules. */
  datatype Attrs = Attrs(ver: nat, src: Words, dst: Words, sport: u16, dport: u16, proto: u8, ttl: u8,
                         tcpFlags: Flags, dir: nat, loopback: int, event: nat, pid: u32)
  {
    function Number(key: Key): nat {
      match key
      case Proto => proto
      case Ttl => ttl
      case Sport => sport
      case Dport => dport
      case EventKind => event
      case Pid => pid
    }

    function Address(side: Side): Words {
      match side
      case Src => src
      case Dst => dst
    }

    /** On an agreeing packet: is this header there? */
    predicate HasHeader(h: Header) {
      match h
      case NoHeader => true
      case IpHeader => ver == 4
      case Ipv6Header => ver == 6
      case IcmpHeader => ver == 4 && proto == IPPROTO_ICMP
      case Icmpv6Header => ver == 6 && proto == IPPROTO_ICMPV6
      case TcpHeader => proto == IPPROTO_TCP
      case UdpHeader => proto == IPPROTO_UDP
    }

    predicate Valid() {
      && (ver == 4 || ver == 6) && (dir == 1 || dir == 2) && (loopback == 0 || loopback == 1) && event <= 15
      && (ver == 4 ==> IsMapped(src) && IsMapped(dst))
    }
  }

  datatype Key = Proto | Ttl | Sport | Dport | EventKind | Pid {
    function Max(): u32 {
      match this
      case Proto => 255
      case Ttl => 255
      case Sport => 65535
      case Dport => 65535
      case EventKind => 15
      case Pid => 0xFFFF_FFFF
    }
  }

  datatype Side = Src | Dst

  datatype Cube = Cube(exact: bool, ver: nat, dir: nat, loopback: int,
                       proto: Range.Range, sport: Range.Range, dport: Range.Range, ttl: Range.Range,
                       src: Addr.Addr, dst: Addr.Addr, tcpFlags: Flags, tcpMask: Flags,
                       event: Range.Range, pid: Range.Range)
  {
    /** The packets and events the cube stands for. */
    predicate In(a: Attrs) {
      && (ver == 0 || a.ver == ver)
      && (dir == 0 || a.dir == dir)
      && (loopback < 0 || a.loopback == loopback)
      && proto.Has(a.proto) && ttl.Has(a.ttl)
      && sport.Has(a.sport) && dport.Has(a.dport)
      && src.Has(Val(a.src)) && dst.Has(Val(a.dst))
      && a.tcpFlags * tcpMask == tcpFlags
      && event.Has(a.event) && pid.Has(a.pid)
    }

    predicate Valid() {
      && (ver == 0 || ver == 4 || ver == 6)
      && (dir == 0 || dir == 1 || dir == 2)
      && (loopback == -1 || loopback == 0 || loopback == 1)
      && (forall key: Key :: Get(key).Valid(key.Max()))
      && tcpFlags <= tcpMask
    }

    /** There is room for one more hole everywhere. */
    predicate Room() {
      !src.hasExcl && !dst.hasExcl && forall key: Key :: |Get(key).excl| < Range.MAX_EXCL
    }

    function Get(key: Key): Range.Range {
      match key
      case Proto => proto
      case Ttl => ttl
      case Sport => sport
      case Dport => dport
      case EventKind => event
      case Pid => pid
    }

    function Set(key: Key, r: Range.Range): Cube {
      match key
      case Proto => this.(proto := r)
      case Ttl => this.(ttl := r)
      case Sport => this.(sport := r)
      case Dport => this.(dport := r)
      case EventKind => this.(event := r)
      case Pid => this.(pid := r)
    }

    function Addr(side: Side): Addr.Addr {
      match side
      case Src => src
      case Dst => dst
    }

    function SetAddr(side: Side, a: Addr.Addr): Cube {
      match side
      case Src => this.(src := a)
      case Dst => this.(dst := a)
    }

    predicate ProtoIs(p: u8) {
      proto.lo == p && proto.hi == p
    }
  }

  /** The unconstrained cube the walk starts from. */
  function Init(): Cube {
    Cube(true, 0, 0, -1, Range.Full(255), Range.Full(65535), Range.Full(65535), Range.Full(255),
         Addr.FULL, Addr.FULL, {}, {}, Range.Full(15), Range.Full(0xFFFF_FFFF))
  }

  lemma InitHasEverything(a: Attrs)
    requires a.event <= 15
    ensures Init().Valid() && Init().In(a)
  {
    ValOfConstants();
    ValBounds(a.src);
    ValBounds(a.dst);
  }

  /** An input as both sides see it. */
  datatype Subject = Subject(view: View, attrs: Attrs)

  /** The evaluator and the kernel see the same unfragmented packet: the transport
      header is there exactly when protocol and version say so. */
  predicate AgreeingPacket(s: Subject) {
    && s.view.PacketView?
    && s.attrs.Valid()
    && s.attrs.ver == (if s.view.ip.V4? then 4 else 6)
    && s.attrs.src == s.view.ip.Src() && s.attrs.dst == s.view.ip.Dst()
    && s.attrs.ttl == (if s.view.ip.V4? then s.view.ip.ttl else s.view.ip.hopLimit)
    && s.attrs.proto == s.view.protocol
    && (s.view.ip.V4? ==> s.view.ip.protocol == s.view.protocol)
    && s.attrs.dir == (if s.view.outbound then 2 else 1)
    && s.attrs.loopback == (if s.view.loopback then 1 else 0)
    && s.attrs.event == 0 && s.attrs.pid == 0
    && AgreeingTransport(s.view.transport, s.attrs)
  }

  predicate AgreeingTransport(t: Transport, a: Attrs) {
    && (t.Tcp? <==> a.proto == IPPROTO_TCP)
    && (t.Udp? <==> a.proto == IPPROTO_UDP)
    && (t.Icmp? <==> a.ver == 4 && a.proto == IPPROTO_ICMP)
    && (t.Icmpv6? <==> a.ver == 6 && a.proto == IPPROTO_ICMPV6)
    && match t
       case Missing => true
       case Tcp(sp, dp, fl) => a.sport == sp && a.dport == dp && a.tcpFlags == fl
       case Udp(sp, dp) => a.sport == sp && a.dport == dp
       case Icmp(k, code) => a.sport == k && a.dport == code
       case Icmpv6(k, code) => a.sport == k && a.dport == code
  }

  predicate AgreeingEvent(s: Subject) {
    && s.view.EventView?
    && s.attrs.event == s.view.event <= 15 && s.attrs.pid == s.view.pid
    && s.attrs.proto == s.view.protocol
    && s.attrs.sport == s.view.localPort && s.attrs.dport == s.view.remotePort
    && s.attrs.src == s.view.local && s.attrs.dst == s.view.remote
  }

  /** An IPv6 packet that does not carry IPv4-mapped addresses. */
  predicate Unmapped(a: Attrs) {
    a.ver == 6 ==> !IsMapped(a.src) && !IsMapped(a.dst)
  }

  predicate IsEndpointAddr(f: Field) { f == LOCALADDR || f == REMOTEADDR }

  /** A test that can tell the family by an IPv4 literal. */
  predicate GuessesFamily(insn: Insn) {
    IsEndpointAddr(insn.field) && insn.test == EQ && IsMapped(insn.arg)
  }

  /** The inputs a step on `insn` is judged on. */
  predicate Agrees(eventMode: bool, insn: Insn, s: Subject) {
    if eventMode then AgreeingEvent(s)
    else AgreeingPacket(s) && (GuessesFamily(insn) ==> Unmapped(s.attrs))
  }

  /** Every input of `c` on which the test comes out as `positive` lies in some cube of `out`. */
  ghost predicate Complete(eventMode: bool, insn: Insn, positive: bool, c: Cube, out: seq<Cube>) {
    forall s: Subject ::
      Agrees(eventMode, insn, s) && c.In(s.attrs) && Truth(insn, s.view) == positive ==>
      exists k :: 0 <= k < |out| && out[k].In(s.attrs)
  }

  /** A cube of `out` still marked exact holds only such inputs. */
  ghost predicate Precise(eventMode: bool, insn: Insn, positive: bool, c: Cube, out: seq<Cube>) {
    forall k, s: Subject ::
      0 <= k < |out| && out[k].exact && Agrees(eventMode, insn, s) && out[k].In(s.attrs) ==>
      c.exact && c.In(s.attrs) && Truth(insn, s.view) == positive
  }

  /** A packet step leaves the event part of a cube alone, an event step the packet part. */
  predicate SameEventPart(c: Cube, d: Cube) {
    d.event == c.event && d.pid == c.pid
  }

  predicate SamePacketPart(c: Cube, d: Cube) {
    && d.ver == c.ver && d.dir == c.dir && d.loopback == c.loopback
    && d.ttl == c.ttl && d.tcpFlags == c.tcpFlags && d.tcpMask == c.tcpMask
  }

  predicate Steps(eventMode: bool, c: Cube, out: seq<Cube>) {
    forall k :: 0 <= k < |out| ==>
      out[k].Valid() && if eventMode then SamePacketPart(c, out[k]) else SameEventPart(c, out[k])
  }

  /** What every cube of a walk looks like: the part its mode never touches is unconstrained. */
  predicate Shaped(eventMode: bool, c: Cube) {
    c.Valid() && if eventMode then SamePacketPart(Init(), c) else SameEventPart(Init(), c)
  }

  /** Addresses untouched, and the version at most fixed. */
  predicate AddrKept(c: Cube, d: Cube) {
    d.src == c.src && d.dst == c.dst && (d.ver == c.ver || c.ver == 0)
  }

  /** An open version leaves both addresses open. */
  predicate Open(c: Cube) {
    c.ver == 0 ==> c.src == Addr.FULL && c.dst == Addr.FULL
  }

  /** Every hole of an IPv4 cube is an IPv4 address. */
  predicate HolesFit(c: Cube) {
    && Open(c)
    && (c.ver == 4 ==> (c.src.hasExcl ==> IsMapped(c.src.excl)) && (c.dst.hasExcl ==> IsMapped(c.dst.excl)))
  }

  /** What IPv4 literals make of the full interval: each end untouched, or in `::ffff:0:0/96`
      or next to it. */
  predicate Shape4(a: Addr.Addr) {
    && (a.hasExcl ==> IsMapped(a.excl))
    && (Val(a.lo) == 0 || Val(MAPPED_LO) <= Val(a.lo) <= Val(MAPPED_HI) + 1)
    && (Val(a.hi) == B128 - 1 || Val(MAPPED_LO) - 1 <= Val(a.hi) <= Val(MAPPED_HI))
  }

  predicate Shaped4(c: Cube) {
    Open(c) && (c.ver == 4 ==> Shape4(c.src) && Shape4(c.dst))
  }

  /** No address of the cube starts (ends) where `::ffff:0:0/96` does. */
  predicate StartsElsewhere(c: Cube) {
    Val(c.src.lo) != Val(MAPPED_LO) && Val(c.dst.lo) != Val(MAPPED_LO)
  }

  predicate EndsElsewhere(c: Cube) {
    Val(c.src.hi) != Val(MAPPED_HI) && Val(c.dst.hi) != Val(MAPPED_HI)
  }

  predicate LowClear(c: Cube) { Open(c) && (c.ver == 6 ==> StartsElsewhere(c)) }

  predicate HighClear(c: Cube) { Open(c) && (c.ver == 6 ==> EndsElsewhere(c)) }

  predicate IsAddress(f: Field) {
    f == IP_SRCADDR || f == IP_DSTADDR || f == IPV6_SRCADDR || f == IPV6_DSTADDR
  }

  predicate IsIpv4Address(f: Field) { f == IP_SRCADDR || f == IP_DSTADDR }

  /** Fields that can narrow an address that is not IPv4. */
  predicate IsWideAddress(f: Field) { f == IPV6_SRCADDR || f == IPV6_DSTADDR || IsEndpointAddr(f) }

  /** Literals that keep holes of IPv4 cubes IPv4: an `ip` address literal is one (the
      compiler sees to it), and a local or remote address is only excluded if it is one. */
  predicate FittingLiteral(insn: Insn) {
    && (IsIpv4Address(insn.field) ==> IsMapped(insn.arg))
    && (IsEndpointAddr(insn.field) && insn.test == NEQ ==> IsMapped(insn.arg))
  }

  predicate MappedLiteral(insn: Insn) {
    IsIpv4Address(insn.field) || IsEndpointAddr(insn.field) ==> IsMapped(insn.arg)
  }

  /** Literals that do not put a lower (upper) end where `::ffff:0:0/96` starts (ends). */
  predicate LowLiteral(insn: Insn) {
    IsWideAddress(insn.field) ==> Val(insn.arg) != Val(MAPPED_LO) && Val(insn.arg) + 1 != Val(MAPPED_LO)
  }

  predicate HighLiteral(insn: Insn) {
    IsWideAddress(insn.field) ==> Val(insn.arg) != Val(MAPPED_HI) && Val(insn.arg) - 1 != Val(MAPPED_HI)
  }

  predicate StaysClean(insn: Insn, c: Cube, d: Cube) {
    && (HolesFit(c) && FittingLiteral(insn) ==> HolesFit(d))
    && (Shaped4(c) && MappedLiteral(insn) ==> Shaped4(d))
    && (LowClear(c) && LowLiteral(insn) ==> LowClear(d))
    && (HighClear(c) && HighLiteral(insn) ==> HighClear(d))
  }

  predicate StayClean(insn: Insn, c: Cube, out: seq<Cube>) {
    forall k :: 0 <= k < |out| ==> StaysClean(insn, c, out[k])
  }

  /** The same for the addresses of events, which have no version. */
  predicate StaysOffBlock(insn: Insn, c: Cube, d: Cube) {
    && (StartsElsewhere(c) && LowLiteral(insn) ==> StartsElsewhere(d))
    && (EndsElsewhere(c) && HighLiteral(insn) ==> EndsElsewhere(d))
  }

  predicate StayOffBlock(insn: Insn, c: Cube, out: seq<Cube>) {
    forall k :: 0 <= k < |out| ==> StaysOffBlock(insn, c, out[k])
  }
}
