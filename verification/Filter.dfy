/** Compiled filters and the evaluator they are measured against. */
module Filter {
  import opened Words
  import opened Fields

  datatype Option<+T> = None | Some(value: T) {
    predicate IsFailure() { None? }
    function PropagateFailure<U>(): Option<U>
      requires None?
    {
      None
    }
    function Extract(): T
      requires Some?
    {
      value
    }
  }

  datatype Test = EQ | NEQ | LT | LEQ | GT | GEQ

  datatype Label = Accept | Reject | Jump(target: nat)

  /** One test of a compiled filter; `neg` marks a negative literal. */
  datatype Insn = Insn(field: Field, test: Test, neg: bool, arg: Words, success: Label, failure: Label)

  const MAXLEN := 256

  /** What a test does with the outcome of a three-way comparison. */
  predicate Decide(test: Test, cmp: int) {
    match test
    case EQ => cmp == 0
    case NEQ => cmp != 0
    case LT => cmp < 0
    case LEQ => cmp <= 0
    case GT => cmp > 0
    case GEQ => cmp >= 0
  }

  /** `v test arg` on plain numbers. */
  predicate Holds(test: Test, v: int, arg: int) {
    Decide(test, v - arg)
  }

  function Negate(test: Test): Test {
    match test
    case EQ => NEQ
    case NEQ => EQ
    case LT => GEQ
    case LEQ => GT
    case GT => LEQ
    case GEQ => LT
  }

  /** Signed-magnitude comparison; `big` says whether words 1 to 3 count. */
  function Compare128(negA: bool, a: Words, negB: bool, b: Words, big: bool): int {
    if negA && !negB then -1
    else if !negA && negB then 1
    else
      var neg := if negA then -1 else 1;
      if big && a[3] != b[3] then (if a[3] < b[3] then -neg else neg)
      else if big && a[2] != b[2] then (if a[2] < b[2] then -neg else neg)
      else if big && a[1] != b[1] then (if a[1] < b[1] then -neg else neg)
      else if a[0] != b[0] then (if a[0] < b[0] then -neg else neg)
      else 0
  }

  /** The value a field has on some input. */
  datatype Operand = Operand(neg: bool, words: Words, big: bool)

  function Small(v: u32): Operand { Operand(false, [v, 0, 0, 0], false) }
  function Big(w: Words): Operand { Operand(false, w, true) }
  function Bool(b: bool): Operand { Small(if b then 1 else 0) }

  datatype Ip =
    | V4(ttl: u8, protocol: u8, src4: u32, dst4: u32)
    | V6(hopLimit: u8, src6: Words, dst6: Words)
  {
    function Src(): Words { if V4? then MappedWords(src4) else src6 }
    function Dst(): Words { if V4? then MappedWords(dst4) else dst6 }
  }

  datatype Transport =
    | Missing
    | Tcp(srcPort: u16, dstPort: u16, flags: Flags)
    | Udp(srcPort: u16, dstPort: u16)
    | Icmp(kind: u8, code: u8)
    | Icmpv6(kind: u8, code: u8)

  /** The values of the fields the lowering never looks at, by field and array index. */
  type Others = (Field, u32) -> Option<Operand>

  /** What the evaluator sees of a packet, or of a socket or flow event. */
  datatype View =
    | PacketView(outbound: bool, loopback: bool, protocol: u8, ip: Ip, transport: Transport, other: Others)
    | EventView(event: u8, pid: u32, protocol: u8, local: Words, remote: Words,
                localPort: u16, remotePort: u16, other: Others)

  predicate HasHeader(v: View, h: Header)
    requires v.PacketView?
  {
    match h
    case NoHeader => true
    case IpHeader => v.ip.V4?
    case Ipv6Header => v.ip.V6?
    case IcmpHeader => v.transport.Icmp?
    case Icmpv6Header => v.transport.Icmpv6?
    case TcpHeader => v.transport.Tcp?
    case UdpHeader => v.transport.Udp?
  }

  /** A byte of TCP flags, as the set of the positions of its one bits. */
  type Flags = set<nat>

  predicate IsTcpFlag(f: Field) { TCP_URG <= f <= TCP_FIN }

  /** Bit position of a flag in byte 13 of the TCP header. */
  function TcpFlagBit(f: Field): nat
    requires IsTcpFlag(f)
  {
    if f == TCP_FIN then 0
    else if f == TCP_SYN then 1
    else if f == TCP_RST then 2
    else if f == TCP_PSH then 3
    else if f == TCP_ACK then 4
    else 5
  }

  /** The port, ICMP type or ICMP code behind a transport field. */
  function TransportValue(t: Transport, f: Field): Operand
    requires f == TCP_SRCPORT || f == TCP_DSTPORT ==> t.Tcp?
    requires f == UDP_SRCPORT || f == UDP_DSTPORT ==> t.Udp?
    requires f == ICMP_TYPE || f == ICMP_CODE ==> t.Icmp?
    requires f == ICMPV6_TYPE || f == ICMPV6_CODE ==> t.Icmpv6?
    requires IsSourceValue(f) || IsDestValue(f)
  {
    if f == TCP_SRCPORT || f == UDP_SRCPORT then Small(t.srcPort)
    else if f == TCP_DSTPORT || f == UDP_DSTPORT then Small(t.dstPort)
    else if f == ICMP_TYPE || f == ICMPV6_TYPE then Small(t.kind)
    else Small(t.code)
  }

  predicate IsSourceValue(f: Field) {
    f == TCP_SRCPORT || f == UDP_SRCPORT || f == ICMP_TYPE || f == ICMPV6_TYPE
  }

  predicate IsDestValue(f: Field) {
    f == TCP_DSTPORT || f == UDP_DSTPORT || f == ICMP_CODE || f == ICMPV6_CODE
  }

  /** The local or remote port; ICMP shows its type on the sending side, anything else 0. */
  function EndpointPort(t: Transport, src: bool): Operand {
    match t
    case Tcp(s, d, _) => Small(if src then s else d)
    case Udp(s, d) => Small(if src then s else d)
    case Icmp(k, _) => Small(if src then k else 0)
    case Icmpv6(k, _) => Small(if src then k else 0)
    case Missing => Small(0)
  }

  /** A field's value on a packet; `None` when its header, or the indexed byte, is missing. */
  function PacketValue(v: View, f: Field, index: u32): Option<Operand>
    requires v.PacketView?
  {
    if !HasHeader(v, HeaderOf(f)) then None
    else if f == ZERO || f == EVENT then Some(Small(0))
    else if f == INBOUND then Some(Bool(!v.outbound))
    else if f == OUTBOUND then Some(Bool(v.outbound))
    else if f == LOOPBACK then Some(Bool(v.loopback))
    else if f == IP then Some(Bool(v.ip.V4?))
    else if f == IPV6 then Some(Bool(v.ip.V6?))
    else if f == ICMP then Some(Bool(v.transport.Icmp?))
    else if f == ICMPV6 then Some(Bool(v.transport.Icmpv6?))
    else if f == TCP then Some(Bool(v.transport.Tcp?))
    else if f == UDP then Some(Bool(v.transport.Udp?))
    else if f == IP_TTL then Some(Small(v.ip.ttl))
    else if f == IP_PROTOCOL then Some(Small(v.ip.protocol))
    else if f == IPV6_HOPLIMIT then Some(Small(v.ip.hopLimit))
    else if f == IP_SRCADDR || f == IPV6_SRCADDR then Some(Big(v.ip.Src()))
    else if f == IP_DSTADDR || f == IPV6_DSTADDR then Some(Big(v.ip.Dst()))
    else if IsSourceValue(f) || IsDestValue(f) then Some(TransportValue(v.transport, f))
    else if IsTcpFlag(f) then Some(Bool(TcpFlagBit(f) in v.transport.flags))
    else if f == LOCALADDR then Some(Big(if v.outbound then v.ip.Src() else v.ip.Dst()))
    else if f == REMOTEADDR then Some(Big(if v.outbound then v.ip.Dst() else v.ip.Src()))
    else if f == LOCALPORT then Some(EndpointPort(v.transport, v.outbound))
    else if f == REMOTEPORT then Some(EndpointPort(v.transport, !v.outbound))
    else if f == PROTOCOL then Some(Small(v.protocol))
    else v.other(f, index)
  }

  /** A field's value on a FLOW or SOCKET event: no headers, so `ip` and `ipv6` are 0. */
  function EventValue(v: View, f: Field, index: u32): Option<Operand>
    requires v.EventView?
  {
    if f == ZERO || f == IP || f == IPV6 then Some(Small(0))
    else if f == EVENT then Some(Small(v.event))
    else if f == PROCESSID then Some(Small(v.pid))
    else if f == PROTOCOL then Some(Small(v.protocol))
    else if f == TCP then Some(Bool(v.protocol == IPPROTO_TCP))
    else if f == UDP then Some(Bool(v.protocol == IPPROTO_UDP))
    else if f == LOCALPORT then Some(Small(v.localPort))
    else if f == REMOTEPORT then Some(Small(v.remotePort))
    else if f == LOCALADDR then Some(Big(v.local))
    else if f == REMOTEADDR then Some(Big(v.remote))
    else v.other(f, index)
  }

  const IPPROTO_ICMP := 1
  const IPPROTO_TCP := 6
  const IPPROTO_UDP := 17
  const IPPROTO_ICMPV6 := 58

  function FieldValue(v: View, f: Field, index: u32): Option<Operand> {
    match v
    case PacketView(_, _, _, _, _, _) => PacketValue(v, f, index)
    case EventView(_, _, _, _, _, _, _, _) => EventValue(v, f, index)
  }

  /** `op test literal`, the literal being the magnitude `arg` with sign `neg`. */
  predicate Meets(op: Operand, test: Test, neg: bool, arg: Words) {
    Decide(test, Compare128(op.neg, op.words, neg, arg, op.big))
  }

  /** Does the test succeed?  An undefined field fails every test. */
  predicate Truth(insn: Insn, v: View) {
    var value := FieldValue(v, insn.field, insn.arg[1]);
    value.Some? && Meets(value.value, insn.test, insn.neg, insn.arg)
  }

  /** Every jump goes forward and stays inside the object. */
  predicate Forward(obj: seq<Insn>) {
    forall i :: 0 <= i < |obj| ==> ForwardLabel(obj[i].success, i, |obj|) && ForwardLabel(obj[i].failure, i, |obj|)
  }

  predicate ForwardLabel(l: Label, i: nat, len: nat) {
    l.Jump? ==> i < l.target < len
  }

  predicate InObject(l: Label, len: nat) {
    l.Jump? ==> l.target < len
  }

  /** Does execution from `l` end in ACCEPT? */
  predicate Accepts(obj: seq<Insn>, l: Label, v: View)
    requires Forward(obj) && InObject(l, |obj|)
    decreases if l.Jump? then |obj| - l.target else 0
  {
    match l
    case Accept => true
    case Reject => false
    case Jump(i) => Accepts(obj, if Truth(obj[i], v) then obj[i].success else obj[i].failure, v)
  }

  predicate FieldsValid(obj: seq<Insn>, layer: Layer) {
    forall i :: 0 <= i < |obj| ==> ValidField(layer, obj[i].field)
  }

  /** The evaluator loop.  It answers 1 exactly when execution reaches ACCEPT, and its
      step budget is never what ends it: -1 can only mean an invalid field. */
  method ExecuteFilter(obj: seq<Insn>, layer: Layer, v: View) returns (result: int)
    requires 1 <= |obj| <= MAXLEN && Forward(obj)
    ensures result == 1 || result == 0 || result == -1
    ensures result == 1 ==> Accepts(obj, Jump(0), v)
    ensures result == 0 ==> !Accepts(obj, Jump(0), v)
    ensures FieldsValid(obj, layer) ==> result != -1
  {
    var ip := 0;
    var ttl := MAXLEN + 1;
    while ttl != 0
      invariant 0 <= ip < |obj|
      invariant ip + ttl >= MAXLEN + 1
      invariant Accepts(obj, Jump(0), v) == Accepts(obj, Jump(ip), v)
      decreases ttl
    {
      ttl := ttl - 1;
      if !ValidField(layer, obj[ip].field) {
        return -1;
      }
      var next := if Truth(obj[ip], v) then obj[ip].success else obj[ip].failure;
      match next {
        case Accept => return 1;
        case Reject => return 0;
        case Jump(target) => ip := target;
      }
    }
    return -1;
  }

  /** A 128-bit comparison of non-negative values is the comparison of the numbers. */
  lemma CompareBig(a: Words, b: Words, test: Test)
    ensures Decide(test, Compare128(false, a, false, b, true)) <==> Holds(test, Val(a), Val(b))
  {
  }
}
