/** The field numbers of a compiled WinDivert filter. */
module Fields {

  const ZERO := 0
  const INBOUND := 1
  const OUTBOUND := 2
  const IFIDX := 3
  const SUBIFIDX := 4
  const IP := 5
  const IPV6 := 6
  const ICMP := 7
  const TCP := 8
  const UDP := 9
  const ICMPV6 := 10
  const IP_HDRLENGTH := 11
  const IP_TOS := 12
  const IP_LENGTH := 13
  const IP_ID := 14
  const IP_DF := 15
  const IP_MF := 16
  const IP_FRAGOFF := 17
  const IP_TTL := 18
  const IP_PROTOCOL := 19
  const IP_CHECKSUM := 20
  const IP_SRCADDR := 21
  const IP_DSTADDR := 22
  const IPV6_TRAFFICCLASS := 23
  const IPV6_FLOWLABEL := 24
  const IPV6_LENGTH := 25
  const IPV6_NEXTHDR := 26
  const IPV6_HOPLIMIT := 27
  const IPV6_SRCADDR := 28
  const IPV6_DSTADDR := 29
  const ICMP_TYPE := 30
  const ICMP_CODE := 31
  const ICMP_CHECKSUM := 32
  const ICMP_BODY := 33
  const ICMPV6_TYPE := 34
  const ICMPV6_CODE := 35
  const ICMPV6_CHECKSUM := 36
  const ICMPV6_BODY := 37
  const TCP_SRCPORT := 38
  const TCP_DSTPORT := 39
  const TCP_SEQNUM := 40
  const TCP_ACKNUM := 41
  const TCP_HDRLENGTH := 42
  const TCP_URG := 43
  const TCP_ACK := 44
  const TCP_PSH := 45
  const TCP_RST := 46
  const TCP_SYN := 47
  const TCP_FIN := 48
  const TCP_WINDOW := 49
  const TCP_CHECKSUM := 50
  const TCP_URGPTR := 51
  const TCP_PAYLOADLENGTH := 52
  const UDP_SRCPORT := 53
  const UDP_DSTPORT := 54
  const UDP_LENGTH := 55
  const UDP_CHECKSUM := 56
  const UDP_PAYLOADLENGTH := 57
  const LOOPBACK := 58
  const IMPOSTOR := 59
  const PROCESSID := 60
  const LOCALADDR := 61
  const REMOTEADDR := 62
  const LOCALPORT := 63
  const REMOTEPORT := 64
  const PROTOCOL := 65
  const ENDPOINTID := 66
  const PARENTENDPOINTID := 67
  const LAYER := 68
  const PRIORITY := 69
  const EVENT := 70
  const PACKET := 71
  const PACKET16 := 72
  const PACKET32 := 73
  const TCP_PAYLOAD := 74
  const TCP_PAYLOAD16 := 75
  const TCP_PAYLOAD32 := 76
  const UDP_PAYLOAD := 77
  const UDP_PAYLOAD16 := 78
  const UDP_PAYLOAD32 := 79
  const LENGTH := 80
  const TIMESTAMP := 81
  const RANDOM8 := 82
  const RANDOM16 := 83
  const RANDOM32 := 84
  const FRAGMENT := 85
  const FIELD_MAX := 85

  type Field = f: nat | f <= 85

  /** The header a field is read from; a test on a field whose header is missing
      fails. */
  datatype Header = NoHeader | IpHeader | Ipv6Header | IcmpHeader | Icmpv6Header | TcpHeader | UdpHeader

  function HeaderOf(f: Field): Header {
    if IP_HDRLENGTH <= f <= IP_DSTADDR then IpHeader
    else if IPV6_TRAFFICCLASS <= f <= IPV6_DSTADDR then Ipv6Header
    else if ICMP_TYPE <= f <= ICMP_BODY then IcmpHeader
    else if ICMPV6_TYPE <= f <= ICMPV6_BODY then Icmpv6Header
    else if TCP_SRCPORT <= f <= TCP_PAYLOADLENGTH || TCP_PAYLOAD <= f <= TCP_PAYLOAD32 then TcpHeader
    else if UDP_SRCPORT <= f <= UDP_PAYLOADLENGTH || UDP_PAYLOAD <= f <= UDP_PAYLOAD32 then UdpHeader
    else NoHeader
  }

  /** The fields a filter indexes, as in `packet[12]`. */
  predicate IsArray(f: Field) {
    PACKET <= f <= UDP_PAYLOAD32
  }

  /** The 64-bit fields. */
  predicate IsTwoWord(f: Field) {
    f == ENDPOINTID || f == PARENTENDPOINTID || f == TIMESTAMP
  }

  datatype Layer = Network | NetworkForward | Flow | Socket | Reflect

  /** Which fields a layer's filters may test. */
  predicate ValidField(layer: Layer, f: Field) {
    match layer
    case Network => f != PROCESSID && !(ENDPOINTID <= f <= PRIORITY)
    case NetworkForward =>
      && f != INBOUND && f != OUTBOUND && f != LOOPBACK
      && !(PROCESSID <= f <= PRIORITY)
    case Flow => ValidEventField(f)
    case Socket => ValidEventField(f)
    case Reflect => f == ZERO || f == PROCESSID || f == LAYER || f == PRIORITY || f == EVENT || f == TIMESTAMP
  }

  predicate ValidEventField(f: Field) {
    || f == ZERO || f == INBOUND || f == OUTBOUND || IP <= f <= ICMPV6
    || f == LOOPBACK || PROCESSID <= f <= PARENTENDPOINTID || f == EVENT || f == TIMESTAMP
  }
}
