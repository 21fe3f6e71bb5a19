/** The two packet parsers, the kernel's and the evaluator's, and the packets they agree on. */
module Packets {
  import opened Words
  import opened Filter
  import opened Cube

  const IPPROTO_HOPOPTS := 0
  const IPPROTO_ROUTING := 43
  const IPPROTO_FRAGMENT := 44
  const IPPROTO_AH := 51
  const IPPROTO_DSTOPTS := 60
  const IPPROTO_MH := 135

  function BE16(b: seq<u8>, i: nat): u16
    requires i + 2 <= |b|
  {
    var hi: nat := b[i];
    var lo: nat := b[i + 1];
    hi * 0x100 + lo
  }

  function BE32(b: seq<u8>, i: nat): u32
    requires i + 4 <= |b|
  {
    var hi: nat := BE16(b, i);
    var lo: nat := BE16(b, i + 2);
    hi * 0x1_0000 + lo
  }

  /** Sixteen bytes in network order. */
  function Words6(b: seq<u8>, i: nat): Words
    requires i + 16 <= |b|
  {
    [BE32(b, i + 12), BE32(b, i + 8), BE32(b, i + 4), BE32(b, i)]
  }

  function FlagBits(b: u8): Flags {
    (if Odd(b, 1) then {0} else {}) + (if Odd(b, 2) then {1} else {})
    + (if Odd(b, 4) then {2} else {}) + (if Odd(b, 8) then {3} else {})
    + (if Odd(b, 16) then {4} else {}) + (if Odd(b, 32) then {5} else {})
    + (if Odd(b, 64) then {6} else {}) + (if Odd(b, 128) then {7} else {})
  }

  predicate Odd(n: nat, d: nat)
    requires d > 0
  {
    n / d % 2 == 1
  }

  /** What the kernel keeps of a packet. */
  datatype Parsed = Parsed(ver: nat, fragment: bool, src: Words, dst: Words, ttl: u8, proto: u8,
                           sport: u16, dport: u16, tcpFlags: Flags)

  /** What the evaluator is given. */
  datatype Headers = Headers(fragment: bool, ip: Ip, protocol: u8, transport: Transport)

  /** The extension headers of section 4 of RFC 8200 that both parsers step over. */
  predicate IsOption(proto: u8) {
    proto == IPPROTO_HOPOPTS || proto == IPPROTO_ROUTING || proto == IPPROTO_DSTOPTS
  }

  predicate IsExtension(proto: u8) {
    IsOption(proto) || proto == IPPROTO_FRAGMENT || proto == IPPROTO_AH || proto == IPPROTO_MH
  }

  function OptionLength(length: u8): nat {
    var n: nat := length;
    (n + 1) * 8
  }

  /** Where at most `n` option headers from `off` on lead: the transport protocol and its place. */
  function Follow(pkt: seq<u8>, limit: nat, proto: u8, off: nat, n: nat): Option<(u8, nat)>
    requires limit <= |pkt|
    decreases n
  {
    if !IsExtension(proto) then Some((proto, off))
    else if !IsOption(proto) || n == 0 || off + 8 > limit then None
    else if pkt[off + 1] == 0xFF || off + OptionLength(pkt[off + 1]) > limit then None
    else
      Follow(pkt, limit, pkt[off], off + OptionLength(pkt[off + 1]), n - 1)
  }

  function Min(a: nat, b: nat): nat { if a < b then a else b }

  /** The length of the transport header a protocol needs. */
  function Needs(proto: u8): nat {
    if proto == IPPROTO_TCP then 20
    else if proto == IPPROTO_UDP || proto == IPPROTO_ICMP || proto == IPPROTO_ICMPV6 then 8
    else 0
  }

  predicate TransportComplete(pkt: seq<u8>, limit: nat, proto: u8, off: nat)
    requires limit <= |pkt|
  {
    off + Needs(proto) <= limit && (proto == IPPROTO_TCP ==> pkt[off + 12] as int / 16 >= 5)
  }

  /** Where the transport header of an unfragmented packet with complete headers is; `linear` is
      how much of the packet the kernel can read directly. */
  function Layout(pkt: seq<u8>, linear: nat): (r: Option<(u8, nat)>)
    requires linear <= |pkt|
  {
    if linear < 20 then None
    else if pkt[0] as int / 16 == 4 then
      var headerLen, totalLen := pkt[0] as int % 16 * 4, BE16(pkt, 2);
      if headerLen < 20 || totalLen < headerLen || |pkt| < headerLen || BE16(pkt, 6) % 0x4000 != 0 then None
      else if !TransportComplete(pkt, Min(linear, totalLen), pkt[9], headerLen) then None
      else Some((pkt[9], headerLen))
    else if pkt[0] as int / 16 == 6 then
      var limit := Min(linear, BE16(pkt, 4) + 40);
      if linear < 40 then None
      else
        var (proto, off) :- Follow(pkt, limit, pkt[6], 40, 4);
        if !TransportComplete(pkt, limit, proto, off) then None else Some((proto, off))
    else None
  }

  /** The IP header, and a transport header of protocol `proto` at `off`, as the standards lay
      them out. */
  function Reference(pkt: seq<u8>, proto: u8, off: nat): Headers
    requires 20 <= |pkt| && off + Needs(proto) <= |pkt| && (pkt[0] as int / 16 == 6 ==> 40 <= |pkt|)
  {
    if pkt[0] as int / 16 == 6 then
      Headers(false, V6(pkt[7], Words6(pkt, 8), Words6(pkt, 24)), proto, ReferenceTransport(pkt, proto, off, 6))
    else
      Headers(false, V4(pkt[8], pkt[9], BE32(pkt, 12), BE32(pkt, 16)), proto, ReferenceTransport(pkt, proto, off, 4))
  }

  function ReferenceTransport(pkt: seq<u8>, proto: u8, off: nat, ver: nat): Transport
    requires off + Needs(proto) <= |pkt|
  {
    if proto == IPPROTO_TCP then Tcp(BE16(pkt, off), BE16(pkt, off + 2), FlagBits(pkt[off + 13]))
    else if proto == IPPROTO_UDP then Udp(BE16(pkt, off), BE16(pkt, off + 2))
    else if proto == IPPROTO_ICMP && ver == 4 then Icmp(pkt[off], pkt[off + 1])
    else if proto == IPPROTO_ICMPV6 && ver == 6 then Icmpv6(pkt[off], pkt[off + 1])
    else Missing
  }

  function AttrsOf(k: Parsed, outbound: bool, loopback: bool): Attrs {
    Attrs(k.ver, k.src, k.dst, k.sport, k.dport, k.proto, k.ttl, k.tcpFlags, if outbound then 2 else 1,
          if loopback then 1 else 0, 0, 0)
  }

  function ViewOf(u: Headers, outbound: bool, loopback: bool, other: Others): View {
    PacketView(outbound, loopback, u.protocol, u.ip, u.transport, other)
  }

  /** Kernel and evaluator see the same packet, whatever else is known about it. */
  ghost predicate SamePacket(k: Parsed, u: Headers) {
    && !k.fragment && !u.fragment
    && forall outbound, loopback, other ::
         AgreeingPacket(Subject(ViewOf(u, outbound, loopback, other), AttrsOf(k, outbound, loopback)))
  }

  /** The ports, or the ICMP type and code, and the TCP flags, as far as they can be read. */
  method KernelPorts(pkt: seq<u8>, linear: nat, proto: u8, off: nat, ver: nat)
    returns (sport: u16, dport: u16, flags: Flags)
    requires linear <= |pkt| && (ver == 4 || ver == 6)
    ensures off + Needs(proto) <= linear ==>
              match ReferenceTransport(pkt, proto, off, ver)
              case Tcp(s, d, f) => sport == s && dport == d && flags == f
              case Udp(s, d) => sport == s && dport == d
              case Icmp(k, c) => sport == k && dport == c
              case Icmpv6(k, c) => sport == k && dport == c
              case Missing => true
  {
    sport, dport, flags := 0, 0, {};
    if proto == IPPROTO_TCP {
      if off + 20 <= linear {
        sport, dport, flags := BE16(pkt, off), BE16(pkt, off + 2), FlagBits(pkt[off + 13]);
      }
    } else if proto == IPPROTO_UDP {
      if off + 8 <= linear {
        sport, dport := BE16(pkt, off), BE16(pkt, off + 2);
      }
    } else if proto == (if ver == 4 then IPPROTO_ICMP else IPPROTO_ICMPV6) {
      if off + 8 <= linear {
        sport, dport := pkt[off], pkt[off + 1];
      }
    }
  }

  /** The kernel's walk over at most four extension headers.  A header length is cut to 11 bits, so
      one of 2048 bytes counts as none at all. */
  method KernelExtensions(pkt: seq<u8>, linear: nat, ghost limit: nat)
    returns (ok: bool, fragment: bool, proto: u8, off: nat)
    requires 40 <= linear <= |pkt| && limit <= linear
    ensures var r := Follow(pkt, limit, pkt[6], 40, 4);
            r.Some? ==> ok && !fragment && r == Some((proto, off))
  {
    hide Follow;
    ok, fragment, proto, off := true, false, pkt[6], 40;
    ghost var r := Follow(pkt, limit, pkt[6], 40, 4);
    for i := 0 to 4
      invariant r.Some? ==> !fragment && r == Follow(pkt, limit, proto, off, 4 - i)
    {
      FollowStep(pkt, limit, proto, off, 4 - i);
      if proto != IPPROTO_HOPOPTS && proto != IPPROTO_ROUTING && proto != IPPROTO_FRAGMENT && proto != IPPROTO_DSTOPTS {
        break;
      }
      if off + 8 > linear {
        return false, fragment, proto, off;
      }
      var headerLen := OptionLength(pkt[off + 1]);
      if proto == IPPROTO_FRAGMENT {
        fragment := true;
        headerLen := 8;
      }
      headerLen := headerLen % 0x800;
      if off + headerLen > linear {
        return false, fragment, proto, off;
      }
      proto := pkt[off];
      off := off + headerLen;
    }
    if r.Some? && ok {
      FollowEnd(pkt, limit, proto, off, 0);
    }
  }

  lemma FollowStep(pkt: seq<u8>, limit: nat, proto: u8, off: nat, n: nat)
    requires limit <= |pkt| && 0 < n
    ensures !IsExtension(proto) ==> Follow(pkt, limit, proto, off, n) == Some((proto, off))
    ensures IsExtension(proto) && Follow(pkt, limit, proto, off, n).Some? ==>
              && IsOption(proto) && off + 8 <= limit && OptionLength(pkt[off + 1]) < 0x800
              && var next := off + OptionLength(pkt[off + 1]);
                 next <= limit && Follow(pkt, limit, proto, off, n) == Follow(pkt, limit, pkt[off], next, n - 1)
  {
  }

  lemma FollowEnd(pkt: seq<u8>, limit: nat, proto: u8, off: nat, n: nat)
    requires limit <= |pkt|
    ensures !IsExtension(proto) ==> Follow(pkt, limit, proto, off, n) == Some((proto, off))
    ensures n == 0 && Follow(pkt, limit, proto, off, n).Some? ==> !IsExtension(proto)
  {
  }

  method KernelParse(pkt: seq<u8>, linear: nat) returns (k: Option<Parsed>)
    requires linear <= |pkt|
    ensures var r := Layout(pkt, linear);
            r.Some? ==> k.Some? && SamePacket(k.value, Reference(pkt, r.value.0, r.value.1))
  {
    hide BE16, BE32, FlagBits, Follow;
    if linear < 1 {
      return None;
    }
    var ver := pkt[0] as int / 16;
    if ver == 4 {
      if linear < 20 || pkt[0] as int % 16 < 5 {
        return None;
      }
      var fragOff, off := BE16(pkt, 6), pkt[0] as int % 16 * 4;
      var sport, dport, flags := 0, 0, {};
      if fragOff % 0x2000 == 0 {
        sport, dport, flags := KernelPorts(pkt, linear, pkt[9], off, 4);
      }
      k := Some(Parsed(4, fragOff % 0x4000 != 0, MappedWords(BE32(pkt, 12)), MappedWords(BE32(pkt, 16)), pkt[8], pkt[9],
                       sport, dport, flags));
    } else if ver == 6 {
      if linear < 40 {
        return None;
      }
      ghost var limit := Min(linear, BE16(pkt, 4) + 40);
      var ok, fragment, proto, off := KernelExtensions(pkt, linear, limit);
      if !ok {
        return None;
      }
      var sport, dport, flags := 0, 0, {};
      if !fragment {
        sport, dport, flags := KernelPorts(pkt, linear, proto, off, 6);
      }
      k := Some(Parsed(6, fragment, Words6(pkt, 8), Words6(pkt, 24), pkt[7], proto, sport, dport, flags));
    } else {
      return None;
    }
  }

  /** The evaluator's walk over extension headers, which may be any number. */
  method UserExtensions(pkt: seq<u8>, packetLen: nat, ghost limit: nat)
    returns (fragment: bool, fragOff: nat, proto: u8, off: nat)
    requires 40 <= packetLen <= |pkt| && limit <= packetLen
    ensures off <= packetLen
    ensures var r := Follow(pkt, limit, pkt[6], 40, 4);
            r.Some? ==> !fragment && fragOff == 0 && r == Some((proto, off))
  {
    fragment, fragOff, proto, off := false, 0, pkt[6], 40;
    ghost var r, n := Follow(pkt, limit, pkt[6], 40, 4), 4;
    while fragOff == 0 && packetLen - off >= 2
      invariant off <= packetLen
      invariant r.Some? ==> !fragment && fragOff == 0 && 0 <= n && r == Follow(pkt, limit, proto, off, n)
      decreases packetLen - off
    {
      var headerLen: nat := pkt[off + 1];
      if proto == IPPROTO_FRAGMENT {
        headerLen := 8;
        if fragment || packetLen - off < 8 {
          break;
        }
        fragOff := BE16(pkt, off + 2) / 8 * 8;
        fragment := true;
      } else if proto == IPPROTO_AH {
        headerLen := (headerLen + 2) * 4;
      } else if IsOption(proto) || proto == IPPROTO_MH {
        headerLen := (headerLen + 1) * 8;
      } else {
        break;
      }
      if packetLen - off < headerLen {
        break;
      }
      proto := pkt[off];
      off := off + headerLen;
      n := n - 1;
    }
  }

  /** The transport header, if it is there whole. */
  function UserTransport(pkt: seq<u8>, dataLen: nat, proto: u8, off: nat, ver: nat): Transport
    requires off + dataLen <= |pkt|
  {
    if proto == IPPROTO_TCP then
      if dataLen < 20 || pkt[off + 12] as int / 16 < 5 then Missing
      else Tcp(BE16(pkt, off), BE16(pkt, off + 2), FlagBits(pkt[off + 13]))
    else if dataLen < 8 then Missing
    else if proto == IPPROTO_UDP then Udp(BE16(pkt, off), BE16(pkt, off + 2))
    else if proto == IPPROTO_ICMP && ver == 4 then Icmp(pkt[off], pkt[off + 1])
    else if proto == IPPROTO_ICMPV6 && ver == 6 then Icmpv6(pkt[off], pkt[off + 1])
    else Missing
  }

  /** The evaluator's parser; it reads the packet up to the length in its IP header, and finds
      the transport header at `off`. */
  method UserParse(pkt: seq<u8>, ghost linear: nat) returns (u: Option<Headers>, off: nat)
    requires linear <= |pkt|
    ensures var r := Layout(pkt, linear);
            r.Some? ==> u == Some(Reference(pkt, r.value.0, r.value.1)) && off == r.value.1
  {
    hide BE16, BE32, FlagBits, Follow;
    off := 0;
    if |pkt| < 20 {
      return None, off;
    }
    var ver := pkt[0] as int / 16;
    if ver == 4 {
      var headerLen, totalLen := pkt[0] as int % 16 * 4, BE16(pkt, 2);
      if headerLen < 20 || totalLen < headerLen || |pkt| < headerLen {
        return None, off;
      }
      var word := BE16(pkt, 6);
      var fragOff, mf := word % 0x2000, word / 0x2000 % 2 == 1;
      var dataLen := Min(totalLen, |pkt|) - headerLen;
      var transport := if fragOff != 0 then Missing else UserTransport(pkt, dataLen, pkt[9], headerLen, 4);
      off := headerLen;
      u := Some(Headers(mf || fragOff != 0, V4(pkt[8], pkt[9], BE32(pkt, 12), BE32(pkt, 16)), pkt[9], transport));
    } else if ver == 6 {
      if |pkt| < 40 {
        return None, off;
      }
      var packetLen := Min(BE16(pkt, 4) + 40, |pkt|);
      var fragment, fragOff, proto;
      fragment, fragOff, proto, off := UserExtensions(pkt, packetLen, Min(linear, BE16(pkt, 4) + 40));
      var transport := if fragOff != 0 then Missing else UserTransport(pkt, packetLen - off, proto, off, 6);
      u := Some(Headers(fragment, V6(pkt[7], Words6(pkt, 8), Words6(pkt, 24)), proto, transport));
    } else {
      return None, off;
    }
  }

  /** Both parsers on one packet. */
  method ParsersAgree(pkt: seq<u8>, linear: nat) returns (k: Option<Parsed>, u: Option<Headers>)
    requires linear <= |pkt|
    ensures Layout(pkt, linear).Some? ==> k.Some? && u.Some? && SamePacket(k.value, u.value)
  {
    hide Layout, SamePacket, Reference;
    k := KernelParse(pkt, linear);
    var off;
    u, off := UserParse(pkt, linear);
  }
}
