/** One branch of one test: which cubes stand for "in this cube, and the test comes
    out this way". */
module Split {
  import opened Words
  import opened Fields
  import opened Filter
  import opened Cube
  import opened Constrain
  import Range
  import Addr

  predicate IsEndpointPort(f: Field) { f == LOCALPORT || f == REMOTEPORT }

  /** Fields lowered to a number of the cube. */
  predicate IsNumber(f: Field) {
    f == IP_PROTOCOL || f == IP_TTL || f == IPV6_HOPLIMIT || IsSourceValue(f) || IsDestValue(f)
  }

  /** Fields that always have a value, so that a failed test is the negated test. */
  predicate IsPresence(f: Field) {
    f == INBOUND || f == OUTBOUND || f == LOOPBACK || IP <= f <= ICMPV6 || f == EVENT
  }

  /** No negative literal where the lowering takes literals as unsigned. */
  predicate Plain(insn: Insn) {
    && (insn.neg ==> !IsNumber(insn.field) && !IsAddress(insn.field))
    && (insn.neg ==> !IsEndpointAddr(insn.field) && !IsEndpointPort(insn.field))
    && (insn.neg && insn.arg[0] == 0 ==> insn.field != ZERO && insn.field != EVENT)
  }

  /** The value of a lowered field, read off the kernel's side of an agreeing packet. */
  function AttrValue(a: Attrs, f: Field): Operand {
    if f == INBOUND then Bool(a.dir == 1)
    else if f == OUTBOUND then Bool(a.dir == 2)
    else if f == LOOPBACK then Bool(a.loopback == 1)
    else if f == IP then Bool(a.HasHeader(IpHeader))
    else if f == IPV6 then Bool(a.HasHeader(Ipv6Header))
    else if f == ICMP then Bool(a.HasHeader(IcmpHeader))
    else if f == ICMPV6 then Bool(a.HasHeader(Icmpv6Header))
    else if f == TCP then Bool(a.HasHeader(TcpHeader))
    else if f == UDP then Bool(a.HasHeader(UdpHeader))
    else if f == IP_TTL || f == IPV6_HOPLIMIT then Small(a.ttl)
    else if f == IP_PROTOCOL then Small(a.proto)
    else if IsSourceValue(f) then Small(a.sport)
    else if IsDestValue(f) then Small(a.dport)
    else if IsTcpFlag(f) then Bool(TcpFlagBit(f) in a.tcpFlags)
    else if f == IP_SRCADDR || f == IPV6_SRCADDR then Big(a.src)
    else if f == IP_DSTADDR || f == IPV6_DSTADDR then Big(a.dst)
    else if f == LOCALADDR then Big(if a.dir == 2 then a.src else a.dst)
    else if f == REMOTEADDR then Big(if a.dir == 2 then a.dst else a.src)
    else if f == LOCALPORT then Small(if a.dir == 2 then a.sport else a.dport)
    else if f == REMOTEPORT then Small(if a.dir == 2 then a.dport else a.sport)
    else Small(0)
  }

  /** Does the kernel's side determine the field's value? */
  predicate Known(a: Attrs, f: Field) {
    || f == ZERO || IsPresence(f) || IsNumber(f) || IsTcpFlag(f) || IsAddress(f) || IsEndpointAddr(f)
    || (IsEndpointPort(f) && (a.proto == IPPROTO_TCP || a.proto == IPPROTO_UDP))
  }

  /** The header being there, the test may (must) succeed as far as the kernel's side tells. */
  predicate May(insn: Insn, a: Attrs) {
    Known(a, insn.field) ==> Meets(AttrValue(a, insn.field), insn.test, insn.neg, insn.arg)
  }

  predicate Must(insn: Insn, a: Attrs) {
    Known(a, insn.field) && Meets(AttrValue(a, insn.field), insn.test, insn.neg, insn.arg)
  }

  lemma HeadersAgree(s: Subject, h: Header)
    requires AgreeingPacket(s)
    ensures HasHeader(s.view, h) <==> s.attrs.HasHeader(h)
  {
  }

  /** On an agreeing packet both sides read the same value. */
  lemma ValuesAgree(s: Subject, f: Field, index: u32)
    requires AgreeingPacket(s) && Known(s.attrs, f) && s.attrs.HasHeader(HeaderOf(f))
    ensures FieldValue(s.view, f, index) == Some(AttrValue(s.attrs, f))
  {
  }

  lemma TruthBounds(insn: Insn, s: Subject)
    requires AgreeingPacket(s)
    ensures Truth(insn, s.view) ==> s.attrs.HasHeader(HeaderOf(insn.field)) && May(insn, s.attrs)
    ensures s.attrs.HasHeader(HeaderOf(insn.field)) && Must(insn, s.attrs) ==> Truth(insn, s.view)
  {
    HeadersAgree(s, HeaderOf(insn.field));
    if Known(s.attrs, insn.field) && s.attrs.HasHeader(HeaderOf(insn.field)) {
      ValuesAgree(s, insn.field, insn.arg[1]);
    }
  }

  /** What one arm of the branch owes: nothing lost, and nothing extra in exact cubes. */
  ghost predicate ArmComplete(insn: Insn, c: Cube, out: seq<Cube>) {
    forall a: Attrs ::
      a.Valid() && (GuessesFamily(insn) ==> Unmapped(a)) && c.In(a) && May(insn, a) ==>
      exists k :: 0 <= k < |out| && out[k].In(a)
  }

  ghost predicate ArmPrecise(insn: Insn, c: Cube, out: seq<Cube>) {
    forall k, a: Attrs ::
      0 <= k < |out| && out[k].exact && a.Valid() && out[k].In(a) ==> c.exact && c.In(a) && Must(insn, a)
  }

  predicate Keeps(c: Cube, out: seq<Cube>) {
    forall k :: 0 <= k < |out| ==> AddrKept(c, out[k])
  }

  lemma KeptStaysClean(insn: Insn, c: Cube, out: seq<Cube>)
    requires Keeps(c, out)
    ensures StayClean(insn, c, out)
  {
    ValOfConstants();
  }

  /** No cube of `out` was widened. */
  predicate KeepsExact(c: Cube, out: seq<Cube>) {
    forall k :: 0 <= k < |out| ==> out[k].exact == c.exact
  }

  /** An arm with at most one cube. */
  lemma Single(insn: Insn, c: Cube, ok: bool, c': Cube)
    requires forall a: Attrs :: a.Valid() && c.In(a) && May(insn, a) ==> ok && c'.In(a)
    requires ok && c'.exact ==> c.exact && forall a: Attrs :: a.Valid() && c'.In(a) ==> c.In(a) && Must(insn, a)
    ensures ArmComplete(insn, c, If(ok, c')) && ArmPrecise(insn, c, If(ok, c'))
  {
    hide May, Must;
    if ok {
      assert If(ok, c')[0] == c';
    }
  }

  /** Dropping the test keeps every packet and gives up exactness. */
  method Widen(insn: Insn, c: Cube) returns (out: seq<Cube>)
    requires c.Valid()
    ensures Steps(false, c, out) && ArmComplete(insn, c, out) && ArmPrecise(insn, c, out)
    ensures out == [c.(exact := false)]
    ensures forall a: Attrs :: c.In(a) ==> out[0].In(a)
    ensures Keeps(c, out)
  {
    var w := c.(exact := false);
    SameNumbers(c, w);
    assert forall a: Attrs :: c.In(a) <==> w.In(a);
    Single(insn, c, true, w);
    out := [w];
  }

  function NumberKey(f: Field): Key
    requires IsNumber(f)
  {
    if f == IP_PROTOCOL then Proto
    else if f == IP_TTL || f == IPV6_HOPLIMIT then Ttl
    else if IsSourceValue(f) then Sport else Dport
  }

  lemma NumberMeets(insn: Insn, a: Attrs)
    requires IsNumber(insn.field) && !insn.neg
    ensures May(insn, a) == Must(insn, a) == Holds(insn.test, a.Number(NumberKey(insn.field)), insn.arg[0])
    ensures a.Number(NumberKey(insn.field)) <= NumberKey(insn.field).Max()
  {
    assert AttrValue(a, insn.field) == Small(a.Number(NumberKey(insn.field)));
  }

  /** A TTL order test, which the kernel rules cannot express. */
  predicate IsTtlOrder(insn: Insn) {
    (insn.field == IP_TTL || insn.field == IPV6_HOPLIMIT) && insn.test != EQ && insn.test != NEQ
  }

  function NumberCubes(insn: Insn, c: Cube): seq<Cube>
    requires IsNumber(insn.field)
  {
    if IsTtlOrder(insn) then [c.(exact := false)]
    else if insn.neg then []
    else Numbered(c, NumberKey(insn.field), insn.test, insn.arg[0])
  }

  /** The tests a cube has no place for: a TTL order test, one hole too many, and a local or remote address
      whose version is open; for a local or remote port also an open protocol without room for two more holes.
      What is local depends on the direction. */
  predicate Dropped(insn: Insn, c: Cube, dir: nat) {
    var f := insn.field;
    || IsTtlOrder(insn)
    || (IsNumber(f) && NoRoom(c, NumberKey(f), insn.test, insn.arg[0]))
    || (IsAddress(f) && Addr.Crowded(c.Addr(AddressSide(f)), insn.test, insn.arg))
    || (IsEndpointAddr(f) && c.ver == 0 && insn.test != EQ)
    || (IsEndpointAddr(f) && Addr.Crowded(c.Addr(EndpointSide(f, dir)), insn.test, insn.arg))
    || (IsEndpointPort(f) && NoRoom(c, PortKey(f, dir), insn.test, insn.arg[0]))
    || (IsEndpointPort(f) && !c.ProtoIs(IPPROTO_TCP) && !c.ProtoIs(IPPROTO_UDP) && |c.proto.excl| > 2)
    || (ICMP <= f <= ICMPV6 && NoRoom(c, Proto, NEQ, ProtocolOf(f)))
  }

  predicate NoRoom(c: Cube, key: Key, test: Test, arg: u32) {
    Range.Crowded(c.Get(key), test, arg, key.Max())
  }

  function PortKey(f: Field, dir: nat): Key {
    if EndpointSide(f, dir) == Src then Sport else Dport
  }

  /** Exact or not, the cubes of an arm hold only inputs of `c`, and only those that may pass the test unless
      it was dropped. */
  ghost predicate ArmTight(insn: Insn, c: Cube, out: seq<Cube>) {
    forall d, a: Attrs :: d in out && a.Valid() && d.In(a) ==> c.In(a) && (Dropped(insn, c, a.dir) || May(insn, a))
  }

  lemma NumberTight(insn: Insn, c: Cube, d: Cube, a: Attrs)
    requires IsNumber(insn.field) && d in NumberCubes(insn, c) && d.In(a)
    ensures c.In(a) && (Dropped(insn, c, a.dir) || May(insn, a))
  {
    hide Numbered;
    if !IsTtlOrder(insn) {
      NumberMeets(insn, a);
      hide Cube.In, May, Must;
      NumberedIn(c, NumberKey(insn.field), insn.test, insn.arg[0], d, a);
    }
  }

  /** Protocol, TTL, ports and ICMP type and code.  The kernel has no TTL ranges. */
  method NumberArm(insn: Insn, c: Cube) returns (out: seq<Cube>)
    requires c.Valid() && IsNumber(insn.field)
    ensures Steps(false, c, out) && ArmPrecise(insn, c, out) && ArmTight(insn, c, out)
    ensures !insn.neg ==> ArmComplete(insn, c, out)
    ensures c.Room() && !IsTtlOrder(insn) ==> KeepsExact(c, out)
    ensures Keeps(c, out) && out == NumberCubes(insn, c)
  {
    hide Cube.In, Numbered, Dropped;
    var f := insn.field;
    forall d, a: Attrs | d in NumberCubes(insn, c) && a.Valid() && d.In(a)
      ensures c.In(a) && (Dropped(insn, c, a.dir) || May(insn, a))
    {
      NumberTight(insn, c, d, a);
    }
    if IsTtlOrder(insn) {
      out := Widen(insn, c);
      return;
    }
    if insn.neg {
      return [];
    }
    var ok, c' := Number(c, NumberKey(f), insn.test, insn.arg[0]);
    forall a: Attrs {
      NumberMeets(insn, a);
    }
    Single(insn, c, ok, c');
    out := If(ok, c');
  }

  /** What `ApplyBool` promises of its slots. */
  ghost predicate BoolStep(insn: Insn, slot: int, ok: bool, slot': int) {
    && (forall b :: Fits(slot, b) && Meets(Bool(b), insn.test, insn.neg, insn.arg) ==> ok && Fits(slot', b))
    && (ok ==> forall b :: Fits(slot', b) ==> Fits(slot, b) && Meets(Bool(b), insn.test, insn.neg, insn.arg))
    && (ok && slot >= 0 ==> slot' == slot)
    && -1 <= slot <= 1 && -1 <= slot' <= 1
  }

  lemma BoolAt(insn: Insn, c: Cube, slot: int, ok: bool, slot': int, c': Cube, b: bool, a: Attrs)
    requires BoolStep(insn, slot, ok, slot') && Known(a, insn.field) && AttrValue(a, insn.field) == Bool(b)
    requires c.In(a) ==> Fits(slot, b)
    requires ok ==> (c'.In(a) <==> c.In(a) && Fits(slot', b))
    ensures c.In(a) && May(insn, a) ==> ok && c'.In(a)
    ensures ok && c'.In(a) ==> c.In(a) && Must(insn, a)
  {
    hide Cube.In, AttrValue;
  }

  function DirectionCubes(insn: Insn, c: Cube): seq<Cube> {
    var wantIn := insn.field == INBOUND;
    match Slotted(DirectionSlot(c, wantIn), insn.test, insn.arg, insn.neg)
    case None => []
    case Some(slot) => [WithDirection(c, wantIn, slot)]
  }

  method DirectionArm(insn: Insn, c: Cube) returns (out: seq<Cube>)
    requires c.Valid() && (insn.field == INBOUND || insn.field == OUTBOUND)
    ensures Steps(false, c, out) && ArmComplete(insn, c, out) && ArmPrecise(insn, c, out) && KeepsExact(c, out)
    ensures Keeps(c, out) && out == DirectionCubes(insn, c)
  {
    hide Slotted;
    var wantIn := insn.field == INBOUND;
    var ok, slot' := ApplyBool(DirectionSlot(c, wantIn), insn.test, insn.arg, insn.neg);
    assert BoolStep(insn, DirectionSlot(c, wantIn), ok, slot');
    var c' := c;
    if ok && slot' >= 0 {
      c' := c.(dir := if wantIn == (slot' == 1) then 1 else 2);
    }
    DirectionSteps(insn, c, ok, slot', c');
    out := If(ok, c');
  }

  function DirectionSlot(c: Cube, wantIn: bool): int {
    if c.dir == 0 then -1 else if (c.dir == 1) == wantIn then 1 else 0
  }

  function WithDirection(c: Cube, wantIn: bool, slot: int): Cube {
    if slot >= 0 then c.(dir := if wantIn == (slot == 1) then 1 else 2) else c
  }

  lemma DirectionAt(c: Cube, wantIn: bool, ok: bool, slot: int, a: Attrs)
    requires c.dir <= 2 && a.Valid() && -1 <= slot <= 1
    requires ok && DirectionSlot(c, wantIn) >= 0 ==> slot == DirectionSlot(c, wantIn)
    ensures c.In(a) ==> Fits(DirectionSlot(c, wantIn), (a.dir == 1) == wantIn)
    ensures ok ==> (WithDirection(c, wantIn, slot).In(a) <==> c.In(a) && Fits(slot, (a.dir == 1) == wantIn))
  {
  }

  lemma DirectionSteps(insn: Insn, c: Cube, ok: bool, slot: int, c': Cube)
    requires c.Valid() && (insn.field == INBOUND || insn.field == OUTBOUND)
    requires BoolStep(insn, DirectionSlot(c, insn.field == INBOUND), ok, slot)
    requires ok ==> c' == WithDirection(c, insn.field == INBOUND, slot)
    ensures Steps(false, c, If(ok, c')) && ArmComplete(insn, c, If(ok, c')) && ArmPrecise(insn, c, If(ok, c'))
  {
    hide Cube.In, May, Must;
    var wantIn := insn.field == INBOUND;
    if ok { SameNumbers(c, c'); }
    forall a: Attrs | a.Valid()
      ensures c.In(a) && May(insn, a) ==> ok && c'.In(a)
      ensures ok && c'.In(a) ==> c.In(a) && Must(insn, a)
    {
      DirectionAt(c, wantIn, ok, slot, a);
      BoolAt(insn, c, DirectionSlot(c, wantIn), ok, slot, c', (a.dir == 1) == wantIn, a);
    }
    Single(insn, c, ok, c');
  }

  function LoopbackCubes(insn: Insn, c: Cube): seq<Cube> {
    match Slotted(c.loopback, insn.test, insn.arg, insn.neg)
    case None => []
    case Some(slot) => [c.(loopback := slot)]
  }

  method LoopbackArm(insn: Insn, c: Cube) returns (out: seq<Cube>)
    requires c.Valid() && insn.field == LOOPBACK
    ensures Steps(false, c, out) && ArmComplete(insn, c, out) && ArmPrecise(insn, c, out) && KeepsExact(c, out)
    ensures Keeps(c, out) && out == LoopbackCubes(insn, c)
  {
    hide Slotted;
    var ok, slot := ApplyBool(c.loopback, insn.test, insn.arg, insn.neg);
    var c' := c.(loopback := slot);
    LoopbackSteps(insn, c, ok, slot);
    out := If(ok, c');
  }

  lemma LoopbackAt(c: Cube, ok: bool, slot: int, a: Attrs)
    requires -1 <= c.loopback <= 1 && a.Valid() && -1 <= slot <= 1 && (ok && c.loopback >= 0 ==> slot == c.loopback)
    ensures c.In(a) ==> Fits(c.loopback, a.loopback == 1)
    ensures ok ==> (c.(loopback := slot).In(a) <==> c.In(a) && Fits(slot, a.loopback == 1))
  {
  }

  lemma LoopbackSteps(insn: Insn, c: Cube, ok: bool, slot: int)
    requires c.Valid() && insn.field == LOOPBACK && BoolStep(insn, c.loopback, ok, slot)
    ensures var out := If(ok, c.(loopback := slot));
            Steps(false, c, out) && ArmComplete(insn, c, out) && ArmPrecise(insn, c, out)
  {
    hide Cube.In, May, Must;
    var c' := c.(loopback := slot);
    SameNumbers(c, c');
    forall a: Attrs | a.Valid()
      ensures c.In(a) && May(insn, a) ==> ok && c'.In(a)
      ensures ok && c'.In(a) ==> c.In(a) && Must(insn, a)
    {
      LoopbackAt(c, ok, slot, a);
      BoolAt(insn, c, c.loopback, ok, slot, c', a.loopback == 1, a);
    }
    Single(insn, c, ok, c');
  }

  function VersionCubes(insn: Insn, c: Cube): seq<Cube> {
    var is4 := insn.field == IP;
    match Slotted(VersionSlot(c, is4), insn.test, insn.arg, insn.neg)
    case None => []
    case Some(slot) => [WithVersion(c, is4, slot)]
  }

  method VersionArm(insn: Insn, c: Cube) returns (out: seq<Cube>)
    requires c.Valid() && (insn.field == IP || insn.field == IPV6)
    ensures Steps(false, c, out) && ArmComplete(insn, c, out) && ArmPrecise(insn, c, out) && KeepsExact(c, out)
    ensures Keeps(c, out) && out == VersionCubes(insn, c)
  {
    hide Slotted;
    var is4 := insn.field == IP;
    var ok, slot' := ApplyBool(VersionSlot(c, is4), insn.test, insn.arg, insn.neg);
    assert BoolStep(insn, VersionSlot(c, is4), ok, slot');
    var c' := c;
    if ok && slot' >= 0 {
      ok, c' := SetVer(c, if (slot' == 1) == is4 then 4 else 6);
    }
    VersionSteps(insn, c, ok, slot', c');
    out := If(ok, c');
  }

  function VersionSlot(c: Cube, is4: bool): int {
    if c.ver == 0 then -1 else if (c.ver == 4) == is4 then 1 else 0
  }

  function WithVersion(c: Cube, is4: bool, slot: int): Cube {
    if slot >= 0 then c.(ver := if (slot == 1) == is4 then 4 else 6) else c
  }

  lemma VersionAt(c: Cube, is4: bool, ok: bool, slot: int, a: Attrs)
    requires (c.ver == 0 || c.ver == 4 || c.ver == 6) && a.Valid() && -1 <= slot <= 1
    requires ok && VersionSlot(c, is4) >= 0 ==> slot == VersionSlot(c, is4)
    ensures c.In(a) ==> Fits(VersionSlot(c, is4), (a.ver == 4) == is4)
    ensures ok ==> (WithVersion(c, is4, slot).In(a) <==> c.In(a) && Fits(slot, (a.ver == 4) == is4))
  {
  }

  lemma VersionSteps(insn: Insn, c: Cube, ok: bool, slot: int, c': Cube)
    requires c.Valid() && (insn.field == IP || insn.field == IPV6)
    requires BoolStep(insn, VersionSlot(c, insn.field == IP), ok, slot)
    requires ok ==> c' == WithVersion(c, insn.field == IP, slot)
    ensures Steps(false, c, If(ok, c')) && ArmComplete(insn, c, If(ok, c')) && ArmPrecise(insn, c, If(ok, c'))
  {
    hide Cube.In, May, Must;
    var is4 := insn.field == IP;
    if ok { SameNumbers(c, c'); }
    forall a: Attrs | a.Valid()
      ensures c.In(a) && May(insn, a) ==> ok && c'.In(a)
      ensures ok && c'.In(a) ==> c.In(a) && Must(insn, a)
    {
      VersionAt(c, is4, ok, slot, a);
      BoolAt(insn, c, VersionSlot(c, is4), ok, slot, c', (a.ver == 4) == is4, a);
    }
    Single(insn, c, ok, c');
  }

  function FlagCubes(insn: Insn, c: Cube): seq<Cube>
    requires IsTcpFlag(insn.field)
  {
    var bit := TcpFlagBit(insn.field);
    match Slotted(FlagSlot(c, bit), insn.test, insn.arg, insn.neg)
    case None => []
    case Some(slot) => [if slot >= 0 then WithFlag(c, bit, slot == 1) else c]
  }

  method FlagArm(insn: Insn, c: Cube) returns (out: seq<Cube>)
    requires c.Valid() && IsTcpFlag(insn.field)
    ensures Steps(false, c, out) && ArmComplete(insn, c, out) && ArmPrecise(insn, c, out) && KeepsExact(c, out)
    ensures Keeps(c, out) && out == FlagCubes(insn, c)
  {
    hide Slotted;
    var bit := TcpFlagBit(insn.field);
    var slot := FlagSlot(c, bit);
    var ok, slot' := ApplyBool(slot, insn.test, insn.arg, insn.neg);
    assert BoolStep(insn, slot, ok, slot');
    var c' := c;
    if ok && slot' >= 0 {
      c' := WithFlag(c, bit, slot' == 1);
    }
    FlagSteps(insn, c, ok, slot', c');
    out := If(ok, c');
  }

  function FlagSlot(c: Cube, bit: nat): int {
    if bit in c.tcpMask then (if bit in c.tcpFlags then 1 else 0) else -1
  }

  function WithFlag(c: Cube, bit: nat, on: bool): Cube {
    c.(tcpMask := c.tcpMask + {bit}, tcpFlags := (c.tcpFlags - {bit}) + (if on then {bit} else {}))
  }

  lemma FlagSteps(insn: Insn, c: Cube, ok: bool, slot: int, c': Cube)
    requires c.Valid() && IsTcpFlag(insn.field)
    requires BoolStep(insn, FlagSlot(c, TcpFlagBit(insn.field)), ok, slot)
    requires c' == if ok && slot >= 0 then WithFlag(c, TcpFlagBit(insn.field), slot == 1) else c
    ensures Steps(false, c, If(ok, c')) && ArmComplete(insn, c, If(ok, c')) && ArmPrecise(insn, c, If(ok, c'))
  {
    hide Cube.In, May, Must;
    var bit := TcpFlagBit(insn.field);
    SameNumbers(c, c');
    forall a: Attrs | a.Valid()
      ensures c.In(a) && May(insn, a) ==> ok && c'.In(a)
      ensures ok && c'.In(a) ==> c.In(a) && Must(insn, a)
    {
      FlagAt(c, bit, ok, slot, c', a);
      BoolAt(insn, c, FlagSlot(c, bit), ok, slot, c', bit in a.tcpFlags, a);
    }
    Single(insn, c, ok, c');
  }

  lemma FlagAt(c: Cube, bit: nat, ok: bool, slot: int, c': Cube, a: Attrs)
    requires c.tcpFlags <= c.tcpMask && (ok && FlagSlot(c, bit) >= 0 ==> slot == FlagSlot(c, bit)) && -1 <= slot <= 1
    requires c' == if ok && slot >= 0 then WithFlag(c, bit, slot == 1) else c
    ensures c.In(a) ==> Fits(FlagSlot(c, bit), bit in a.tcpFlags)
    ensures ok ==> (c'.In(a) <==> c.In(a) && Fits(slot, bit in a.tcpFlags))
  {
    assert bit in c.tcpMask ==> (bit in a.tcpFlags * c.tcpMask <==> bit in a.tcpFlags);
    if ok && slot >= 0 {
      MaskStep(a.tcpFlags, c.tcpMask, c.tcpFlags, bit, slot == 1);
    }
  }

  /** Masking with one more bit adds exactly the constraint on that bit. */
  lemma MaskStep(f: Flags, mask: Flags, flags: Flags, bit: nat, on: bool)
    requires flags <= mask
    requires bit in mask ==> (bit in flags) == on
    ensures f * (mask + {bit}) == (flags - {bit}) + (if on then {bit} else {})
            <==> f * mask == flags && (bit in f) == on
  {
    var flags' := (flags - {bit}) + (if on then {bit} else {});
    if f * (mask + {bit}) == flags' {
      assert bit in f * (mask + {bit}) <==> bit in flags';
      forall x ensures x in f * mask <==> x in flags {
        assert x in f * (mask + {bit}) <==> x in flags';
      }
    }
    if f * mask == flags && (bit in f) == on {
      forall x ensures x in f * (mask + {bit}) <==> x in flags' {
        assert x in f * mask <==> x in flags;
      }
    }
  }

  lemma AddressMeets(insn: Insn, a: Attrs, side: Side)
    requires !insn.neg && Known(a, insn.field) && AttrValue(a, insn.field) == Big(a.Address(side))
    ensures May(insn, a) == Must(insn, a) == Holds(insn.test, Val(a.Address(side)), Val(insn.arg))
  {
    CompareBig(a.Address(side), insn.arg, insn.test);
  }

  function AddressSide(f: Field): Side {
    if f == IP_SRCADDR || f == IPV6_SRCADDR then Src else Dst
  }

  /** An address cut down to `::ffff:0:0/96`. */
  function Clamp(a: Addr.Addr): Addr.Addr {
    a.(lo := if Val(a.lo) < Val(MAPPED_LO) then MAPPED_LO else a.lo,
       hi := if Val(a.hi) > Val(MAPPED_HI) then MAPPED_HI else a.hi)
  }

  function AddressCubes(insn: Insn, c: Cube): seq<Cube> {
    var side := AddressSide(insn.field);
    var d := if IsIpv4Address(insn.field) then c.SetAddr(side, Clamp(c.Addr(side))) else c;
    if insn.neg then [] else Addressed(d, side, insn.test, insn.arg)
  }

  /** Source and destination addresses.  An IPv4 field's value lies in `::ffff:0:0/96`. */
  method AddressArm(insn: Insn, c: Cube) returns (out: seq<Cube>)
    requires c.Valid() && IsAddress(insn.field)
    requires HeaderOf(insn.field) == IpHeader ==> c.ver == 4
    requires HeaderOf(insn.field) == Ipv6Header ==> c.ver == 6
    ensures Steps(false, c, out) && ArmPrecise(insn, c, out)
    ensures !insn.neg ==> ArmComplete(insn, c, out)
    ensures c.Room() ==> KeepsExact(c, out)
    ensures StayClean(insn, c, out) && out == AddressCubes(insn, c)
  {
    hide Cube.In, Addressed, Clamp, Val;
    if insn.neg {
      return [];
    }
    var side := AddressSide(insn.field);
    var d := c;
    if IsIpv4Address(insn.field) {
      d := ClampMapped(c, side);
    }
    assert c.Room() ==> !d.Addr(side).hasExcl;
    forall a: Attrs {
      AddressMeets(insn, a, side);
    }
    hide May, Must, Cube.Room;
    var ok, c' := Address(d, side, insn.test, insn.arg);
    if ok {
      AddressStaysClean(insn, c, side, d, c');
    }
    hide StaysClean;
    Single(insn, c, ok, c');
    out := If(ok, c');
  }

  lemma AddressStaysClean(insn: Insn, c: Cube, side: Side, d: Cube, c': Cube)
    requires IsAddress(insn.field) && c.ver == (if IsIpv4Address(insn.field) then 4 else 6)
    requires d == if c.ver == 4 then c.SetAddr(side, Clamp(c.Addr(side))) else c
    requires c' == d.SetAddr(side, c'.Addr(side)).(exact := c'.exact)
    requires Addr.NarrowedBy(d.Addr(side), c'.Addr(side), insn.test, insn.arg)
    ensures StaysClean(insn, c, c')
  {
    NarrowedStays(d.Addr(side), c'.Addr(side), insn.test, insn.arg);
    ClampedShape(c.Addr(side));
    hide Clamp, Shape4, Val, Addr.NarrowedBy;
  }

  /** What a narrowed interval inherits. */
  lemma NarrowedStays(a: Addr.Addr, a': Addr.Addr, test: Test, arg: Words)
    requires Addr.NarrowedBy(a, a', test, arg)
    ensures IsMapped(arg) && Shape4(a) ==> Shape4(a')
    ensures (a.hasExcl ==> IsMapped(a.excl)) && (test == NEQ ==> IsMapped(arg)) ==> (a'.hasExcl ==> IsMapped(a'.excl))
    ensures Val(a.lo) != Val(MAPPED_LO) && Val(arg) != Val(MAPPED_LO) && Val(arg) + 1 != Val(MAPPED_LO) ==>
              Val(a'.lo) != Val(MAPPED_LO)
    ensures Val(a.hi) != Val(MAPPED_HI) && Val(arg) != Val(MAPPED_HI) && Val(arg) - 1 != Val(MAPPED_HI) ==>
              Val(a'.hi) != Val(MAPPED_HI)
  {
    MappedIsInterval(arg);
    ValOfConstants();
    hide Val, IsMapped;
  }

  lemma ClampedShape(a: Addr.Addr)
    ensures (a.hasExcl ==> IsMapped(a.excl)) ==> (Shape4(a) ==> Shape4(Clamp(a)))
    ensures Clamp(a).hasExcl == a.hasExcl && Clamp(a).excl == a.excl
  {
    ValOfConstants();
    hide Val;
  }

  method ClampMapped(c: Cube, side: Side) returns (d: Cube)
    requires c.Valid() && c.ver == 4
    ensures d.Valid() && SameEventPart(c, d) && d.exact == c.exact && d == c.SetAddr(side, Clamp(c.Addr(side)))
    ensures d.Addr(side).hasExcl == c.Addr(side).hasExcl
    ensures forall a: Attrs :: a.Valid() ==> (d.In(a) <==> c.In(a))
  {
    hide Cube.In, Attrs.Valid, Val;
    var r := c.Addr(side);
    var cmpLo := Cmp128(r.lo, MAPPED_LO);
    if cmpLo < 0 {
      r := r.(lo := MAPPED_LO);
    }
    var cmpHi := Cmp128(r.hi, MAPPED_HI);
    if cmpHi > 0 {
      r := r.(hi := MAPPED_HI);
    }
    d := c.SetAddr(side, r);
    SameNumbers(c, d);
    forall a: Attrs | a.Valid() ensures d.In(a) <==> c.In(a) {
      ClampKeeps(c, side, a);
    }
  }

  lemma ClampKeeps(c: Cube, side: Side, a: Attrs)
    requires a.Valid() && c.ver == 4
    ensures c.SetAddr(side, Clamp(c.Addr(side))).In(a) <==> c.In(a)
  {
    if a.ver == 4 {
      MappedIsInterval(a.Address(side));
      hide Val, IsMapped;
    }
  }

  /** `ver` 0 stands for both versions. */
  predicate IsProtocol(a: Attrs, ver: nat, proto: u8) {
    a.proto == proto && (ver == 0 || a.ver == ver)
  }

  /** `out` are the inputs of `c` on which `IsProtocol` is `want`. */
  ghost predicate Selects(c: Cube, out: seq<Cube>, ver: nat, proto: u8, want: bool) {
    && Steps(false, c, out)
    && (forall a: Attrs :: a.Valid() && c.In(a) && IsProtocol(a, ver, proto) == want ==>
          exists k :: 0 <= k < |out| && out[k].In(a))
    && (forall k, a: Attrs :: 0 <= k < |out| && out[k].exact && a.Valid() && out[k].In(a) ==>
          c.exact && c.In(a) && IsProtocol(a, ver, proto) == want)
  }

  function ProtocolCubes(insn: Insn, c: Cube): seq<Cube> {
    var proto, ver := ProtocolOf(insn.field), VersionOf(insn.field);
    match Slotted(-1, insn.test, insn.arg, insn.neg)
    case None => []
    case Some(slot) =>
      if slot < 0 then [c] else if slot == 1 then KeptCubes(c, ver, proto) else DroppedCubes(c, ver, proto)
  }

  function KeptCubes(c: Cube, ver: nat, proto: u8): seq<Cube> {
    var s := Numbered(c, Proto, EQ, proto);
    if s == [] || ver == 0 then s else Versioned(s[0], ver)
  }

  function OtherCubes(c: Cube, ver: nat, proto: u8): seq<Cube> {
    var s := if ver == 0 then [c] else Versioned(c, ver);
    if s == [] then [] else Numbered(s[0], Proto, NEQ, proto)
  }

  function DroppedCubes(c: Cube, ver: nat, proto: u8): seq<Cube> {
    (if ver == 0 then [] else Versioned(c, if ver == 4 then 6 else 4)) + OtherCubes(c, ver, proto)
  }

  /** `tcp`, `udp`, `icmp` and `icmpv6`. */
  method ProtocolArm(insn: Insn, c: Cube) returns (out: seq<Cube>)
    requires c.Valid() && ICMP <= insn.field <= ICMPV6
    ensures Steps(false, c, out) && ArmComplete(insn, c, out) && ArmPrecise(insn, c, out)
    ensures c.Room() ==> KeepsExact(c, out)
    ensures Keeps(c, out) && out == ProtocolCubes(insn, c)
  {
    hide Cube.In, Slotted, KeptCubes, DroppedCubes;
    var proto, ver := ProtocolOf(insn.field), VersionOf(insn.field);
    var ok, slot := ApplyBool(-1, insn.test, insn.arg, insn.neg);
    assert BoolStep(insn, -1, ok, slot);
    forall a: Attrs {
      ProtocolMeets(insn, a, ok, slot);
    }
    if !ok || slot < 0 {
      Single(insn, c, ok, c);
      out := If(ok, c);
    } else if slot == 1 {
      out := KeepProtocol(c, ver, proto);
    } else {
      out := DropProtocol(c, ver, proto);
    }
  }

  function ProtocolOf(f: Field): u8 {
    if f == TCP then IPPROTO_TCP else if f == UDP then IPPROTO_UDP
    else if f == ICMP then IPPROTO_ICMP else IPPROTO_ICMPV6
  }

  function VersionOf(f: Field): nat {
    if f == ICMP then 4 else if f == ICMPV6 then 6 else 0
  }

  lemma ProtocolMeets(insn: Insn, a: Attrs, ok: bool, slot: int)
    requires ICMP <= insn.field <= ICMPV6 && BoolStep(insn, -1, ok, slot)
    ensures May(insn, a) == Must(insn, a) ==
            (ok && Fits(slot, IsProtocol(a, VersionOf(insn.field), ProtocolOf(insn.field))))
  {
    assert Fits(-1, true) && Fits(-1, false);
    assert AttrValue(a, insn.field) == Bool(IsProtocol(a, VersionOf(insn.field), ProtocolOf(insn.field)));
  }

  method KeepProtocol(c: Cube, ver: nat, proto: u8) returns (out: seq<Cube>)
    requires c.Valid() && (ver == 0 || ver == 4 || ver == 6)
    ensures Selects(c, out, ver, proto, true)
    ensures c.Room() ==> KeepsExact(c, out)
    ensures Keeps(c, out) && out == KeptCubes(c, ver, proto)
  {
    hide Cube.In, Numbered;
    var ok, d := Number(c, Proto, EQ, proto);
    if ok && ver != 0 {
      ok, d := SetVer(d, ver);
    }
    out := If(ok, d);
    assert ok ==> out[0] == d;
  }

  /** "Not icmp" is "the other version, or another protocol". */
  method DropProtocol(c: Cube, ver: nat, proto: u8) returns (out: seq<Cube>)
    requires c.Valid() && (ver == 0 || ver == 4 || ver == 6)
    ensures Selects(c, out, ver, proto, false)
    ensures c.Room() ==> KeepsExact(c, out)
    ensures Keeps(c, out) && out == DroppedCubes(c, ver, proto)
  {
    hide Cube.In, Cube.Room, OtherCubes;
    var okAlt, alt := false, c;
    if ver != 0 {
      okAlt, alt := SetVer(c, if ver == 4 then 6 else 4);
    }
    var ok, d := OtherProtocol(c, ver, proto);
    out := If(okAlt, alt) + If(ok, d);
    assert okAlt ==> out[0] == alt;
    assert ok ==> out[|out| - 1] == d;
  }

  /** This version (any, for 0) with another protocol. */
  method OtherProtocol(c: Cube, ver: nat, proto: u8) returns (ok: bool, d: Cube)
    requires c.Valid() && (ver == 0 || ver == 4 || ver == 6)
    ensures (ok ==> d.Valid() && AddrKept(c, d)) && SameEventPart(c, d)
    ensures (d.exact ==> c.exact) && (c.Room() ==> d.exact == c.exact) && If(ok, d) == OtherCubes(c, ver, proto)
    ensures forall a: Attrs :: c.In(a) && (ver == 0 || a.ver == ver) && a.proto != proto ==> ok && d.In(a)
    ensures ok && d.exact ==> forall a: Attrs :: d.In(a) ==> c.In(a) && (ver == 0 || a.ver == ver) && a.proto != proto
  {
    hide Cube.In, Numbered;
    assert c.Room() ==> |c.Get(Proto).excl| < 4;
    hide Cube.Room;
    ok, d := true, c;
    if ver != 0 {
      ok, d := SetVer(c, ver);
    }
    if ok {
      ok, d := Number(d, Proto, NEQ, proto);
    }
  }

  /** One direction's share of an arm. */
  ghost predicate DirComplete(insn: Insn, c: Cube, dir: nat, out: seq<Cube>) {
    forall a: Attrs ::
      a.Valid() && (GuessesFamily(insn) ==> Unmapped(a)) && c.In(a) && a.dir == dir && May(insn, a) ==>
      exists k :: 0 <= k < |out| && out[k].In(a)
  }

  lemma BothDirections(insn: Insn, c: Cube, inward: seq<Cube>, outward: seq<Cube>)
    requires DirComplete(insn, c, 1, inward) && DirComplete(insn, c, 2, outward)
    requires ArmPrecise(insn, c, inward) && ArmPrecise(insn, c, outward)
    ensures ArmComplete(insn, c, inward + outward) && ArmPrecise(insn, c, inward + outward)
  {
    hide May, Must, Cube.In;
    forall a: Attrs | a.Valid() && (GuessesFamily(insn) ==> Unmapped(a)) && c.In(a) && May(insn, a)
      ensures exists k :: 0 <= k < |inward + outward| && (inward + outward)[k].In(a)
    {
      if a.dir == 1 {
        var k :| 0 <= k < |inward| && inward[k].In(a);
        assert (inward + outward)[k].In(a);
      } else {
        var k :| 0 <= k < |outward| && outward[k].In(a);
        assert (inward + outward)[|inward| + k].In(a);
      }
    }
  }

  /** Which end of the packet a local or remote field means in a direction. */
  function EndpointSide(f: Field, dir: nat): Side {
    if (f == LOCALADDR || f == LOCALPORT) == (dir == 2) then Src else Dst
  }

  method OnlyDirection(c: Cube, dir: nat) returns (ok: bool, d: Cube)
    requires c.Valid() && (dir == 1 || dir == 2)
    ensures d.Valid() && d.exact == c.exact && d.ver == c.ver && SameEventPart(c, d)
    ensures forall a: Attrs :: c.In(a) && a.dir == dir ==> ok && d.In(a)
    ensures ok ==> forall a: Attrs :: d.In(a) ==> c.In(a) && a.dir == dir
    ensures (ok <==> c.dir == 0 || c.dir == dir) && d == c.(dir := dir)
  {
    ok, d := c.dir == 0 || c.dir == dir, c.(dir := dir);
    SameNumbers(c, d);
  }

  /** With the version open, `==` fixes it by the literal's shape and anything else is
      widened to the full address range. */
  function Narrowed(insn: Insn, c: Cube, side: Side): seq<Cube> {
    var s := Addressed(c, side, insn.test, insn.arg);
    if s == [] || c.ver != 0 then s
    else if insn.test == EQ then [s[0].(ver := if IsMapped(insn.arg) then 4 else 6)]
    else [s[0].SetAddr(side, Addr.FULL).(exact := false)]
  }

  function EndpointCubes(insn: Insn, c: Cube, dir: nat): seq<Cube> {
    if c.dir != 0 && c.dir != dir then [] else Narrowed(insn, c.(dir := dir), EndpointSide(insn.field, dir))
  }

  function EndpointAddrCubes(insn: Insn, c: Cube): seq<Cube> {
    if insn.neg then [] else EndpointCubes(insn, c, 1) + EndpointCubes(insn, c, 2)
  }

  /** `localAddr` and `remoteAddr`, split by direction. */
  method EndpointAddrArm(insn: Insn, c: Cube) returns (out: seq<Cube>)
    requires c.Valid() && IsEndpointAddr(insn.field)
    ensures Steps(false, c, out) && ArmPrecise(insn, c, out)
    ensures !insn.neg ==> ArmComplete(insn, c, out)
    ensures c.Room() && (c.ver != 0 || insn.test == EQ) ==> KeepsExact(c, out)
    ensures StayClean(insn, c, out) && out == EndpointAddrCubes(insn, c)
  {
    hide EndpointCubes, StaysClean;
    if insn.neg {
      return [];
    }
    var inward := EndpointAddr(insn, c, 1);
    var outward := EndpointAddr(insn, c, 2);
    BothDirections(insn, c, inward, outward);
    out := inward + outward;
  }

  method EndpointAddr(insn: Insn, c: Cube, dir: nat) returns (out: seq<Cube>)
    requires c.Valid() && IsEndpointAddr(insn.field) && !insn.neg && (dir == 1 || dir == 2)
    ensures Steps(false, c, out) && DirComplete(insn, c, dir, out) && ArmPrecise(insn, c, out)
    ensures c.Room() && (c.ver != 0 || insn.test == EQ) ==> KeepsExact(c, out)
    ensures StayClean(insn, c, out) && out == EndpointCubes(insn, c, dir)
  {
    hide Cube.In, Narrowed, StaysClean;
    var side := EndpointSide(insn.field, dir);
    forall a: Attrs | a.dir == dir && a.Valid()
      ensures May(insn, a) == Must(insn, a) == Holds(insn.test, Val(a.Address(side)), Val(insn.arg))
    {
      AddressMeets(insn, a, side);
    }
    hide May, Must;
    var ok, d := OnlyDirection(c, dir);
    if !ok {
      return [];
    }
    assert c.Room() ==> !d.Addr(side).hasExcl;
    hide Cube.Room;
    var e := d;
    ok, e := NarrowEndpoint(insn, d, side);
    DirSingle(insn, c, dir, ok, e);
    out := If(ok, e);
    if ok {
      KeptStaysClean(insn, c, [d]);
      CleanChain(insn, c, d, e);
    }
  }

  lemma CleanChain(insn: Insn, c: Cube, d: Cube, e: Cube)
    requires StaysClean(insn, c, [d][0]) && StaysClean(insn, d, e)
    ensures StaysClean(insn, c, e)
  {
  }

  method NarrowEndpoint(insn: Insn, c: Cube, side: Side) returns (ok: bool, d: Cube)
    requires c.Valid() && IsEndpointAddr(insn.field)
    ensures ok ==> d.Valid() && SameEventPart(c, d)
    ensures !c.Addr(side).hasExcl && (c.ver != 0 || insn.test == EQ) ==> d.exact == c.exact
    ensures forall a: Attrs ::
              a.Valid() && (GuessesFamily(insn) ==> Unmapped(a)) ==>
              c.In(a) && Holds(insn.test, Val(a.Address(side)), Val(insn.arg)) ==> ok && d.In(a)
    ensures ok && d.exact ==>
              c.exact && forall a: Attrs :: d.In(a) ==> c.In(a) && Holds(insn.test, Val(a.Address(side)), Val(insn.arg))
    ensures ok ==> StaysClean(insn, c, d)
    ensures If(ok, d) == Narrowed(insn, c, side)
  {
    hide Cube.In, Addressed, StaysClean;
    ok, d := Address(c, side, insn.test, insn.arg);
    if !ok {
      return;
    }
    ghost var e := d;
    if d.ver == 0 {
      if insn.test == EQ {
        d := GuessVersion(insn, d, side);
      } else {
        d := Forget(d, side);
      }
    }
    EndpointStaysClean(insn, c, side, e, d);
  }

  lemma EndpointStaysClean(insn: Insn, c: Cube, side: Side, e: Cube, d: Cube)
    requires IsEndpointAddr(insn.field)
    requires e == c.SetAddr(side, e.Addr(side)).(exact := e.exact)
    requires Addr.NarrowedBy(c.Addr(side), e.Addr(side), insn.test, insn.arg)
    requires c.ver != 0 ==> d == e
    requires c.ver == 0 && insn.test == EQ ==> d == e.(ver := if IsMapped(insn.arg) then 4 else 6)
    requires c.ver == 0 && insn.test != EQ ==> d == e.SetAddr(side, Addr.FULL).(exact := false)
    ensures StaysClean(insn, c, d)
  {
    hide StaysClean, Val;
    if c.ver != 0 {
      KnownStaysClean(insn, c, side, d);
    } else if insn.test == EQ {
      GuessStaysClean(insn, c, side, d);
    } else {
      ForgetStaysClean(insn, c, side, d);
    }
  }

  /** A cube of a known version with one end narrowed. */
  lemma KnownStaysClean(insn: Insn, c: Cube, side: Side, d: Cube)
    requires IsEndpointAddr(insn.field) && c.ver != 0
    requires d == c.SetAddr(side, d.Addr(side)).(exact := d.exact)
    requires Addr.NarrowedBy(c.Addr(side), d.Addr(side), insn.test, insn.arg)
    ensures StaysClean(insn, c, d)
  {
    hide Addr.NarrowedBy, Shape4, Val, IsMapped;
    NarrowedStays(c.Addr(side), d.Addr(side), insn.test, insn.arg);
  }

  lemma ForgetStaysClean(insn: Insn, c: Cube, side: Side, d: Cube)
    requires c.ver == 0 && d.ver == 0 && d == c.SetAddr(side, Addr.FULL).(exact := d.exact)
    ensures StaysClean(insn, c, d)
  {
  }

  /** An open cube fixed to one address and its family. */
  lemma GuessStaysClean(insn: Insn, c: Cube, side: Side, d: Cube)
    requires c.ver == 0 && d.ver == (if IsMapped(insn.arg) then 4 else 6)
    requires d.Addr(side).lo == d.Addr(side).hi == insn.arg && !d.Addr(side).hasExcl
    requires d == c.SetAddr(side, d.Addr(side)).(ver := d.ver, exact := d.exact)
    ensures StaysClean(insn, c, d)
  {
    MappedIsInterval(insn.arg);
    ValOfConstants();
    hide Val, IsMapped;
  }

  lemma DirSingle(insn: Insn, c: Cube, dir: nat, ok: bool, e: Cube)
    requires forall a: Attrs ::
               a.Valid() && (GuessesFamily(insn) ==> Unmapped(a)) && c.In(a) && a.dir == dir && May(insn, a) ==>
               ok && e.In(a)
    requires ok && e.exact ==> c.exact && forall a: Attrs :: a.Valid() && e.In(a) ==> c.In(a) && Must(insn, a)
    ensures DirComplete(insn, c, dir, If(ok, e)) && ArmPrecise(insn, c, If(ok, e))
  {
    hide Cube.In, May, Must;
    assert ok ==> If(ok, e)[0] == e;
  }

  /** The family told by the literal: of the packets that equal it, exactly the IPv6 ones that carry
      an IPv4-mapped address are lost. */
  method GuessVersion(insn: Insn, c: Cube, side: Side) returns (d: Cube)
    requires c.Valid() && c.ver == 0
    ensures d.Valid() && SameEventPart(c, d) && d == c.(ver := if IsMapped(insn.arg) then 4 else 6)
    ensures forall a: Attrs :: d.In(a) ==> c.In(a)
    ensures forall a: Attrs :: a.Valid() && c.In(a) && Val(a.Address(side)) == Val(insn.arg) ==>
              (d.In(a) <==> !(a.ver == 6 && IsMapped(a.Address(side))))
  {
    d := c.(ver := if IsMapped(insn.arg) then 4 else 6);
    SameNumbers(c, d);
    forall a: Attrs | a.Valid() && c.In(a) && Val(a.Address(side)) == Val(insn.arg)
      ensures d.In(a) <==> !(a.ver == 6 && IsMapped(a.Address(side)))
    {
      ValInjective(a.Address(side), insn.arg);
    }
  }

  method Forget(c: Cube, side: Side) returns (d: Cube)
    requires c.Valid() && c.ver == 0
    ensures d.Valid() && !d.exact && SameEventPart(c, d) && d.ver == 0
    ensures d == c.SetAddr(side, Addr.FULL).(exact := false)
    ensures forall a: Attrs :: c.In(a) ==> d.In(a)
  {
    hide Cube.In;
    d := c.SetAddr(side, Addr.FULL).(exact := false);
    SameNumbers(c, d);
    forall a: Attrs | c.In(a) ensures d.In(a) {
      ForgetKeeps(c, side, a);
    }
  }

  lemma ForgetKeeps(c: Cube, side: Side, a: Attrs)
    requires c.In(a)
    ensures c.SetAddr(side, Addr.FULL).(exact := false).In(a)
  {
    ValOfConstants();
    ValBounds(a.Address(side));
  }

  function PortCubes(insn: Insn, c: Cube, dir: nat): seq<Cube> {
    var key := if EndpointSide(insn.field, dir) == Src then Sport else Dport;
    if c.dir != 0 && c.dir != dir then [] else Numbered(c.(dir := dir), key, insn.test, insn.arg[0])
  }

  function BothPortCubes(insn: Insn, c: Cube): seq<Cube> {
    PortCubes(insn, c, 1) + PortCubes(insn, c, 2)
  }

  function PortsOfCubes(insn: Insn, c: Cube, proto: u8): seq<Cube> {
    var s := Numbered(c, Proto, EQ, proto);
    if s == [] then [] else BothPortCubes(insn, s[0])
  }

  function NoPortsCubes(c: Cube): seq<Cube> {
    var s := Numbered(c, Proto, NEQ, IPPROTO_TCP);
    var t := if s == [] then [] else Numbered(s[0], Proto, NEQ, IPPROTO_UDP);
    if t == [] then [] else [t[0].(exact := false)]
  }

  function EndpointPortCubes(insn: Insn, c: Cube): seq<Cube> {
    if insn.neg then []
    else if c.ProtoIs(IPPROTO_TCP) || c.ProtoIs(IPPROTO_UDP) then BothPortCubes(insn, c)
    else PortsOfCubes(insn, c, IPPROTO_TCP) + PortsOfCubes(insn, c, IPPROTO_UDP) + NoPortsCubes(c)
  }

  /** `localPort` and `remotePort`: TCP, UDP, and anything else, which is widened. */
  method EndpointPortArm(insn: Insn, c: Cube) returns (out: seq<Cube>)
    requires c.Valid() && IsEndpointPort(insn.field)
    ensures Steps(false, c, out) && ArmPrecise(insn, c, out)
    ensures !insn.neg ==> ArmComplete(insn, c, out)
    ensures c.Room() && (c.ProtoIs(IPPROTO_TCP) || c.ProtoIs(IPPROTO_UDP)) ==> KeepsExact(c, out)
    ensures Keeps(c, out) && out == EndpointPortCubes(insn, c)
  {
    hide BothPortCubes, PortsOfCubes, NoPortsCubes;
    if insn.neg {
      return [];
    }
    if c.ProtoIs(IPPROTO_TCP) || c.ProtoIs(IPPROTO_UDP) {
      out := EndpointPorts(insn, c);
      return;
    }
    var tcp := PortsOf(insn, c, IPPROTO_TCP);
    var udp := PortsOf(insn, c, IPPROTO_UDP);
    var rest := NoPorts(insn, c);
    out := tcp + udp + rest;
    ThreeWays(insn, c, tcp, udp, rest);
  }

  /** One protocol's share of a port arm. */
  ghost predicate ProtoComplete(insn: Insn, c: Cube, proto: u8, out: seq<Cube>) {
    forall a: Attrs :: a.Valid() && c.In(a) && a.proto == proto && May(insn, a) ==>
      exists k :: 0 <= k < |out| && out[k].In(a)
  }

  ghost predicate RestComplete(c: Cube, out: seq<Cube>) {
    forall a: Attrs :: c.In(a) && a.proto != IPPROTO_TCP && a.proto != IPPROTO_UDP ==>
      exists k :: 0 <= k < |out| && out[k].In(a)
  }

  lemma ThreeWays(insn: Insn, c: Cube, tcp: seq<Cube>, udp: seq<Cube>, rest: seq<Cube>)
    requires ProtoComplete(insn, c, IPPROTO_TCP, tcp) && ProtoComplete(insn, c, IPPROTO_UDP, udp)
    requires RestComplete(c, rest)
    requires ArmPrecise(insn, c, tcp) && ArmPrecise(insn, c, udp) && ArmPrecise(insn, c, rest)
    requires IsEndpointPort(insn.field)
    ensures ArmComplete(insn, c, tcp + udp + rest) && ArmPrecise(insn, c, tcp + udp + rest)
  {
    hide May, Must, Cube.In;
    var out := tcp + udp + rest;
    forall a: Attrs | a.Valid() && c.In(a) && May(insn, a)
      ensures exists k :: 0 <= k < |out| && out[k].In(a)
    {
      if a.proto == IPPROTO_TCP {
        var k :| 0 <= k < |tcp| && tcp[k].In(a);
        assert out[k].In(a);
      } else if a.proto == IPPROTO_UDP {
        var k :| 0 <= k < |udp| && udp[k].In(a);
        assert out[|tcp| + k].In(a);
      } else {
        var k :| 0 <= k < |rest| && rest[k].In(a);
        assert out[|tcp| + |udp| + k].In(a);
      }
    }
  }

  method PortsOf(insn: Insn, c: Cube, proto: u8) returns (out: seq<Cube>)
    requires c.Valid() && IsEndpointPort(insn.field) && !insn.neg
    requires proto == IPPROTO_TCP || proto == IPPROTO_UDP
    ensures Steps(false, c, out) && ProtoComplete(insn, c, proto, out) && ArmPrecise(insn, c, out)
    ensures Keeps(c, out) && out == PortsOfCubes(insn, c, proto)
  {
    hide Cube.In, Numbered, BothPortCubes;
    var ok, d := Number(c, Proto, EQ, proto);
    if !ok {
      return [];
    }
    out := EndpointPorts(insn, d);
  }

  method NoPorts(insn: Insn, c: Cube) returns (out: seq<Cube>)
    requires c.Valid() && IsEndpointPort(insn.field)
    ensures Steps(false, c, out) && RestComplete(c, out) && ArmPrecise(insn, c, out)
    ensures Keeps(c, out) && out == NoPortsCubes(c)
  {
    hide May, Must, Numbered;
    var ok, d := Number(c, Proto, NEQ, IPPROTO_TCP);
    if ok {
      ok, d := Number(d, Proto, NEQ, IPPROTO_UDP);
    }
    var w := d.(exact := false);
    if ok {
      SameNumbers(d, w);
    }
    out := If(ok, w);
    forall a: Attrs | c.In(a) && a.proto != IPPROTO_TCP && a.proto != IPPROTO_UDP
      ensures exists k :: 0 <= k < |out| && out[k].In(a)
    {
      assert out[0].In(a);
    }
  }

  /** Split by direction, on a cube that has ports. */
  method EndpointPorts(insn: Insn, c: Cube) returns (out: seq<Cube>)
    requires c.Valid() && IsEndpointPort(insn.field) && !insn.neg
    requires forall a: Attrs :: c.In(a) ==> a.proto == IPPROTO_TCP || a.proto == IPPROTO_UDP
    ensures Steps(false, c, out) && ArmComplete(insn, c, out) && ArmPrecise(insn, c, out)
    ensures c.Room() ==> KeepsExact(c, out)
    ensures Keeps(c, out) && out == BothPortCubes(insn, c)
  {
    hide PortCubes;
    var inward := EndpointPort(insn, c, 1);
    var outward := EndpointPort(insn, c, 2);
    BothDirections(insn, c, inward, outward);
    out := inward + outward;
  }

  lemma PortMeets(insn: Insn, a: Attrs, key: Key, dir: nat)
    requires IsEndpointPort(insn.field) && !insn.neg && a.dir == dir && (dir == 1 || dir == 2)
    requires a.proto == IPPROTO_TCP || a.proto == IPPROTO_UDP
    requires key == if EndpointSide(insn.field, dir) == Src then Sport else Dport
    ensures May(insn, a) == Must(insn, a) == Holds(insn.test, a.Number(key), insn.arg[0])
  {
    assert AttrValue(a, insn.field) == Small(a.Number(key));
  }

  lemma PortsMeet(insn: Insn, c: Cube, key: Key, dir: nat)
    requires IsEndpointPort(insn.field) && !insn.neg && (dir == 1 || dir == 2)
    requires key == if EndpointSide(insn.field, dir) == Src then Sport else Dport
    requires forall a: Attrs :: c.In(a) ==> a.proto == IPPROTO_TCP || a.proto == IPPROTO_UDP
    ensures forall a: Attrs :: a.dir == dir && a.Valid() && c.In(a) ==>
              May(insn, a) == Must(insn, a) == Holds(insn.test, a.Number(key), insn.arg[0])
    ensures forall a: Attrs :: a.Number(key) <= key.Max()
  {
    hide Cube.In;
    forall a: Attrs | a.dir == dir && a.Valid() && c.In(a)
      ensures May(insn, a) == Must(insn, a) == Holds(insn.test, a.Number(key), insn.arg[0])
    {
      PortMeets(insn, a, key, dir);
    }
  }

  method EndpointPort(insn: Insn, c: Cube, dir: nat) returns (out: seq<Cube>)
    requires c.Valid() && IsEndpointPort(insn.field) && !insn.neg && (dir == 1 || dir == 2)
    requires forall a: Attrs :: c.In(a) ==> a.proto == IPPROTO_TCP || a.proto == IPPROTO_UDP
    ensures Steps(false, c, out) && DirComplete(insn, c, dir, out) && ArmPrecise(insn, c, out)
    ensures c.Room() ==> KeepsExact(c, out)
    ensures Keeps(c, out) && out == PortCubes(insn, c, dir)
  {
    hide Cube.In, Numbered, May, Must, Attrs.Number;
    var ok, d := OnlyDirection(c, dir);
    if !ok {
      return [];
    }
    var key := if EndpointSide(insn.field, dir) == Src then Sport else Dport;
    PortsMeet(insn, c, key, dir);
    assert c.Room() ==> |d.Get(key).excl| < 4;
    hide Cube.Room;
    ok, d := Number(d, key, insn.test, insn.arg[0]);
    DirSingle(insn, c, dir, ok, d);
    out := If(ok, d);
  }

  function AbsentCubes(c: Cube, f: Field): seq<Cube> {
    match HeaderOf(f)
    case NoHeader => []
    case IpHeader => Versioned(c, 6)
    case Ipv6Header => Versioned(c, 4)
    case TcpHeader => DroppedCubes(c, 0, IPPROTO_TCP)
    case UdpHeader => DroppedCubes(c, 0, IPPROTO_UDP)
    case IcmpHeader => DroppedCubes(c, 4, IPPROTO_ICMP)
    case Icmpv6Header => DroppedCubes(c, 6, IPPROTO_ICMPV6)
  }

  /** The cubes meaning "the header behind `f` is missing"; `handled` is false when that
      cannot be expressed. */
  method Absent(c: Cube, f: Field) returns (handled: bool, out: seq<Cube>)
    requires c.Valid()
    ensures handled <==> HasAbsentForm(f)
    ensures Steps(false, c, out)
    ensures handled ==> forall a: Attrs :: a.Valid() && c.In(a) && !a.HasHeader(HeaderOf(f)) ==>
              exists k :: 0 <= k < |out| && out[k].In(a)
    ensures handled ==> forall k, a: Attrs :: 0 <= k < |out| && out[k].exact && a.Valid() && out[k].In(a) ==>
              c.exact && c.In(a) && !a.HasHeader(HeaderOf(f))
    ensures c.Room() ==> KeepsExact(c, out)
    ensures Keeps(c, out) && (handled ==> out == AbsentCubes(c, f))
  {
    hide Cube.In, Cube.Room, DroppedCubes;
    if !HasAbsentForm(f) {
      return false, [];
    }
    handled := true;
    match HeaderOf(f) {
      case IpHeader =>
        out := OtherVersion(c, 6);
      case Ipv6Header =>
        out := OtherVersion(c, 4);
      case TcpHeader =>
        out := DropProtocol(c, 0, IPPROTO_TCP);
      case UdpHeader =>
        out := DropProtocol(c, 0, IPPROTO_UDP);
      case IcmpHeader =>
        out := DropProtocol(c, 4, IPPROTO_ICMP);
      case Icmpv6Header =>
        out := DropProtocol(c, 6, IPPROTO_ICMPV6);
    }
  }

  method OtherVersion(c: Cube, ver: nat) returns (out: seq<Cube>)
    requires c.Valid() && (ver == 4 || ver == 6)
    ensures Steps(false, c, out)
    ensures forall a: Attrs :: c.In(a) && a.ver == ver ==> exists k :: 0 <= k < |out| && out[k].In(a)
    ensures KeepsExact(c, out) && forall k, a: Attrs :: 0 <= k < |out| && out[k].In(a) ==> c.In(a) && a.ver == ver
    ensures Keeps(c, out) && out == Versioned(c, ver)
  {
    var ok, d := SetVer(c, ver);
    out := If(ok, d);
    assert ok ==> out[0] == d;
  }

  /** The tests an arm can express without widening. */
  predicate ExactArm(insn: Insn, c: Cube) {
    var f := insn.field;
    || IsPresence(f) || IsTcpFlag(f) || IsAddress(f)
    || (IsNumber(f) && !IsTtlOrder(insn))
    || (IsEndpointAddr(f) && (c.ver != 0 || insn.test == EQ))
    || (IsEndpointPort(f) && (c.ProtoIs(IPPROTO_TCP) || c.ProtoIs(IPPROTO_UDP)))
  }

  function ArmCubes(insn: Insn, c: Cube): seq<Cube> {
    var f := insn.field;
    if f == EVENT then If(ZeroTest(insn.test, insn.arg[0], insn.neg), c)
    else if f == INBOUND || f == OUTBOUND then DirectionCubes(insn, c)
    else if f == LOOPBACK then LoopbackCubes(insn, c)
    else if f == IP || f == IPV6 then VersionCubes(insn, c)
    else if ICMP <= f <= ICMPV6 then ProtocolCubes(insn, c)
    else if IsNumber(f) then NumberCubes(insn, c)
    else if IsTcpFlag(f) then FlagCubes(insn, c)
    else if IsAddress(f) then AddressCubes(insn, c)
    else if IsEndpointAddr(f) then EndpointAddrCubes(insn, c)
    else if IsEndpointPort(f) then EndpointPortCubes(insn, c)
    else [c.(exact := false)]
  }

  /** The arm of a field, its header being there. */
  method Arm(insn: Insn, c: Cube) returns (out: seq<Cube>)
    requires c.Valid() && insn.field != ZERO
    requires HeaderOf(insn.field) == IpHeader ==> c.ver == 4
    requires HeaderOf(insn.field) == Ipv6Header ==> c.ver == 6
    ensures Steps(false, c, out)
    ensures Plain(insn) ==> ArmComplete(insn, c, out) && ArmPrecise(insn, c, out)
    ensures c.Room() && ExactArm(insn, c) ==> KeepsExact(c, out)
    ensures StayClean(insn, c, out) && out == ArmCubes(insn, c)
  {
    hide May, Must, ArmComplete, ArmPrecise, Cube.Room, StaysClean, AddrKept;
    hide DirectionCubes, LoopbackCubes, VersionCubes, ProtocolCubes, NumberCubes, FlagCubes, AddressCubes;
    hide EndpointAddrCubes, EndpointPortCubes;
    var f := insn.field;
    if f == EVENT {
      out := EventArm(insn, c);
    } else if f == INBOUND || f == OUTBOUND {
      out := DirectionArm(insn, c);
    } else if f == LOOPBACK {
      out := LoopbackArm(insn, c);
    } else if f == IP || f == IPV6 {
      out := VersionArm(insn, c);
    } else if ICMP <= f <= ICMPV6 {
      out := ProtocolArm(insn, c);
    } else if IsNumber(f) {
      out := NumberArm(insn, c);
    } else if IsTcpFlag(f) {
      out := FlagArm(insn, c);
    } else if IsAddress(f) {
      out := AddressArm(insn, c);
    } else if IsEndpointAddr(f) {
      out := EndpointAddrArm(insn, c);
    } else if IsEndpointPort(f) {
      out := EndpointPortArm(insn, c);
    } else {
      out := Widen(insn, c);
    }
    if !IsAddress(f) && !IsEndpointAddr(f) {
      KeptStaysClean(insn, c, out);
    }
  }

  /** The network layers only have event 0. */
  method EventArm(insn: Insn, c: Cube) returns (out: seq<Cube>)
    requires c.Valid() && insn.field == EVENT
    ensures Steps(false, c, out) && KeepsExact(c, out)
    ensures Plain(insn) ==> ArmComplete(insn, c, out) && ArmPrecise(insn, c, out)
    ensures Keeps(c, out) && out == If(ZeroTest(insn.test, insn.arg[0], insn.neg), c)
  {
    var ok := ZeroTest(insn.test, insn.arg[0], insn.neg);
    out := If(ok, c);
    if Plain(insn) {
      ZeroTestIsMeets(insn.test, insn.arg, insn.neg);
      Single(insn, c, ok, c);
    }
  }

  /** A positive branch: the header is there and the test succeeds. */
  lemma Positive(insn: Insn, c: Cube, ok: bool, d: Cube, out: seq<Cube>)
    requires forall a: Attrs :: c.In(a) && a.HasHeader(HeaderOf(insn.field)) ==> ok && d.In(a)
    requires ok ==> d.exact == c.exact && forall a: Attrs :: d.In(a) ==> c.In(a) && a.HasHeader(HeaderOf(insn.field))
    requires ok ==> ArmComplete(insn, d, out) && ArmPrecise(insn, d, out)
    requires !ok ==> out == []
    ensures Complete(false, insn, true, c, out) && Precise(false, insn, true, c, out)
  {
    forall s: Subject | AgreeingPacket(s)
      ensures Truth(insn, s.view) ==> s.attrs.HasHeader(HeaderOf(insn.field)) && May(insn, s.attrs)
      ensures s.attrs.HasHeader(HeaderOf(insn.field)) && Must(insn, s.attrs) ==> Truth(insn, s.view)
    {
      TruthBounds(insn, s);
    }
    hide May, Must, Truth, AgreeingTransport;
  }

  function Negated(insn: Insn): Insn {
    insn.(test := Negate(insn.test))
  }

  /** With the field known, a failed test is the negated test. */
  lemma NegatedMust(insn: Insn, a: Attrs)
    requires Known(a, insn.field)
    ensures May(Negated(insn), a) == Must(Negated(insn), a) == !Must(insn, a)
  {
  }

  /** A failed test on a field whose header the cube guarantees. */
  lemma NegativePresent(insn: Insn, c: Cube, out: seq<Cube>)
    requires IsPresence(insn.field) || HasAbsentForm(insn.field)
    requires forall a: Attrs :: c.In(a) ==> a.HasHeader(HeaderOf(insn.field))
    requires ArmComplete(Negated(insn), c, out) && ArmPrecise(Negated(insn), c, out)
    ensures Complete(false, insn, false, c, out) && Precise(false, insn, false, c, out)
  {
    forall s: Subject | AgreeingPacket(s) && c.In(s.attrs)
      ensures Truth(insn, s.view) <==> !May(Negated(insn), s.attrs)
      ensures May(Negated(insn), s.attrs) <==> Must(Negated(insn), s.attrs)
    {
      TruthBounds(insn, s);
      NegatedMust(insn, s.attrs);
    }
    hide May, Must, Truth, AgreeingTransport;
  }

  lemma TruthNegated(insn: Insn, s: Subject)
    requires AgreeingPacket(s) && HasAbsentForm(insn.field)
    ensures Truth(insn, s.view) <==> s.attrs.HasHeader(HeaderOf(insn.field)) && !May(Negated(insn), s.attrs)
    ensures May(Negated(insn), s.attrs) <==> Must(Negated(insn), s.attrs)
  {
    TruthBounds(insn, s);
    NegatedMust(insn, s.attrs);
  }

  /** A failed test otherwise: the header is missing, or it is there and the test fails. */
  lemma NegativeSplit(insn: Insn, c: Cube, absent: seq<Cube>, ok: bool, d: Cube, rest: seq<Cube>)
    requires HasAbsentForm(insn.field)
    requires forall a: Attrs :: a.Valid() && c.In(a) && !a.HasHeader(HeaderOf(insn.field)) ==>
               exists k :: 0 <= k < |absent| && absent[k].In(a)
    requires forall k, a: Attrs :: 0 <= k < |absent| && absent[k].exact && a.Valid() && absent[k].In(a) ==>
               c.exact && c.In(a) && !a.HasHeader(HeaderOf(insn.field))
    requires forall a: Attrs :: c.In(a) && a.HasHeader(HeaderOf(insn.field)) ==> ok && d.In(a)
    requires ok ==> d.exact == c.exact && forall a: Attrs :: d.In(a) ==> c.In(a) && a.HasHeader(HeaderOf(insn.field))
    requires ok ==> ArmComplete(Negated(insn), d, rest) && ArmPrecise(Negated(insn), d, rest)
    requires !ok ==> rest == []
    ensures Complete(false, insn, false, c, absent + rest) && Precise(false, insn, false, c, absent + rest)
  {
    hide May, Must, Truth, AgreeingTransport, Cube.In, Attrs.HasHeader;
    var out := absent + rest;
    forall s: Subject | AgreeingPacket(s)
      ensures Truth(insn, s.view) <==> s.attrs.HasHeader(HeaderOf(insn.field)) && !May(Negated(insn), s.attrs)
      ensures May(Negated(insn), s.attrs) <==> Must(Negated(insn), s.attrs)
    {
      TruthNegated(insn, s);
    }
    forall s: Subject | AgreeingPacket(s) && c.In(s.attrs) && !Truth(insn, s.view)
      ensures exists k :: 0 <= k < |out| && out[k].In(s.attrs)
    {
      if s.attrs.HasHeader(HeaderOf(insn.field)) {
        var k :| 0 <= k < |rest| && rest[k].In(s.attrs);
        assert out[|absent| + k].In(s.attrs);
      } else {
        var k :| 0 <= k < |absent| && absent[k].In(s.attrs);
        assert out[k].In(s.attrs);
      }
    }
  }

  /** The branches lowered exactly as long as there is room for holes: everything the
      kernel rules have a field for, except TTL order tests, a failed test on a local or
      remote field, and a local or remote field whose version or protocol is open. */
  predicate ExactBranch(insn: Insn, positive: bool, c: Cube) {
    || insn.field == ZERO
    || (positive && ExactArm(insn, c))
    || (!positive && ExactArm(insn, c) && (IsPresence(insn.field) || HasAbsentForm(insn.field)))
  }

  lemma CleanThrough(insn: Insn, insn': Insn, c: Cube, d: Cube, out: seq<Cube>)
    requires insn' == insn || (insn' == Negated(insn) && !IsEndpointAddr(insn.field))
    requires AddrKept(c, d) && StayClean(insn', d, out)
    ensures StayClean(insn, c, out)
  {
    KeptStaysClean(insn, c, [d]);
    assert StaysClean(insn, c, [d][0]);
  }

  function ThereCubes(insn: Insn, c: Cube): seq<Cube> {
    var s := Required(c, insn.field);
    if s == [] then [] else ArmCubes(insn, s[0])
  }

  function FailedCubes(insn: Insn, c: Cube): seq<Cube> {
    if IsPresence(insn.field) || CubeHasHeader(c, insn.field) then ArmCubes(Negated(insn), c)
    else if !HasAbsentForm(insn.field) then [c.(exact := false)]
    else AbsentCubes(c, insn.field) + ThereCubes(Negated(insn), c)
  }

  function ZeroCubes(insn: Insn, positive: bool, c: Cube): seq<Cube> {
    If(ZeroTest(insn.test, insn.arg[0], insn.neg) == positive, c)
  }

  /** What one outcome of a packet test leaves of a cube. */
  function PacketCubes(insn: Insn, positive: bool, c: Cube): seq<Cube> {
    if insn.field == ZERO then ZeroCubes(insn, positive, c)
    else if positive then ThereCubes(insn, c)
    else FailedCubes(insn, c)
  }

  /** The cubes for one outcome of a packet test. */
  method PacketBranch(insn: Insn, positive: bool, c: Cube) returns (out: seq<Cube>)
    requires c.Valid()
    ensures Steps(false, c, out)
    ensures Plain(insn) ==> Complete(false, insn, positive, c, out) && Precise(false, insn, positive, c, out)
    ensures c.Room() && ExactBranch(insn, positive, c) ==> KeepsExact(c, out)
    ensures StayClean(insn, c, out) && out == PacketCubes(insn, positive, c)
  {
    hide ThereCubes, FailedCubes;
    hide Complete, Precise, Cube.Room, Cube.In, StaysClean, AddrKept, Plain;
    if insn.field == ZERO {
      out := ZeroBranch(false, insn, positive, c);
      KeptStaysClean(insn, c, out);
    } else if positive {
      out := PositiveBranch(insn, c);
    } else {
      out := NegativeBranch(insn, c);
    }
  }

  method PositiveBranch(insn: Insn, c: Cube) returns (out: seq<Cube>)
    requires c.Valid() && insn.field != ZERO
    ensures Steps(false, c, out)
    ensures Plain(insn) ==> Complete(false, insn, true, c, out) && Precise(false, insn, true, c, out)
    ensures c.Room() && ExactArm(insn, c) ==> KeepsExact(c, out)
    ensures StayClean(insn, c, out) && out == ThereCubes(insn, c)
  {
    hide May, Must, ArmComplete, ArmPrecise, Complete, Precise, Cube.Room, Cube.In, StaysClean, AddrKept;
    hide Required, ArmCubes;
    var ok, d := RequireHeader(c, insn.field);
    out := [];
    if ok {
      out := Arm(insn, d);
      CleanThrough(insn, insn, c, d, out);
    }
    if Plain(insn) {
      Positive(insn, c, ok, d, out);
    }
  }

  /** A failed test means that the header is missing or that the value fails the test. */
  method NegativeBranch(insn: Insn, c: Cube) returns (out: seq<Cube>)
    requires c.Valid() && insn.field != ZERO
    ensures Steps(false, c, out)
    ensures Plain(insn) ==> Complete(false, insn, false, c, out) && Precise(false, insn, false, c, out)
    ensures c.Room() && ExactArm(insn, c) && (IsPresence(insn.field) || HasAbsentForm(insn.field)) ==>
              KeepsExact(c, out)
    ensures StayClean(insn, c, out) && out == FailedCubes(insn, c)
  {
    hide May, Must, ArmComplete, ArmPrecise, Complete, Precise, Cube.Room, Cube.In, StaysClean, AddrKept;
    hide Required, ArmCubes, AbsentCubes;
    var f := insn.field;
    if IsPresence(f) || CubeHasHeader(c, f) {
      out := PresentBranch(insn, c);
      return;
    }
    var handled, absent := Absent(c, f);
    if !handled {
      out := WidenAll(insn, c);
      KeptStaysClean(insn, c, out);
      return;
    }
    var ok, d := RequireHeader(c, f);
    var rest := [];
    if ok {
      rest := Arm(Negated(insn), d);
      CleanThrough(insn, Negated(insn), c, d, rest);
    }
    KeptStaysClean(insn, c, absent);
    if Plain(insn) {
      NegativeSplit(insn, c, absent, ok, d, rest);
    }
    out := absent + rest;
  }

  method PresentBranch(insn: Insn, c: Cube) returns (out: seq<Cube>)
    requires c.Valid() && (IsPresence(insn.field) || CubeHasHeader(c, insn.field))
    ensures Steps(false, c, out)
    ensures Plain(insn) ==> Complete(false, insn, false, c, out) && Precise(false, insn, false, c, out)
    ensures c.Room() && ExactArm(insn, c) ==> KeepsExact(c, out)
    ensures StayClean(insn, c, out) && out == ArmCubes(Negated(insn), c)
  {
    hide May, Must, ArmComplete, ArmPrecise, Complete, Precise, Cube.Room, Cube.In, StaysClean, ArmCubes;
    out := Arm(Negated(insn), c);
    CleanThrough(insn, Negated(insn), c, c, out);
    if Plain(insn) {
      forall a: Attrs | c.In(a) ensures a.HasHeader(HeaderOf(insn.field)) {
        if CubeHasHeader(c, insn.field) { CubeHasHeaderIsSound(c, insn.field, a); }
      }
      NegativePresent(insn, c, out);
    }
  }

  method WidenAll(insn: Insn, c: Cube) returns (out: seq<Cube>)
    requires c.Valid()
    ensures Steps(false, c, out)
    ensures Complete(false, insn, false, c, out) && Precise(false, insn, false, c, out)
    ensures Keeps(c, out) && out == [c.(exact := false)]
  {
    var w := c.(exact := false);
    SameNumbers(c, w);
    out := [w];
    forall s: Subject | c.In(s.attrs) ensures out[0].In(s.attrs) {
    }
  }

  /** The ZERO field has value 0 everywhere. */
  method ZeroBranch(eventMode: bool, insn: Insn, positive: bool, c: Cube) returns (out: seq<Cube>)
    requires c.Valid() && insn.field == ZERO
    ensures Steps(eventMode, c, out) && KeepsExact(c, out)
    ensures Plain(insn) ==> Complete(eventMode, insn, positive, c, out) && Precise(eventMode, insn, positive, c, out)
    ensures Keeps(c, out) && out == ZeroCubes(insn, positive, c)
  {
    out := If(ZeroTest(insn.test, insn.arg[0], insn.neg) == positive, c);
    ZeroTestIsMeets(insn.test, insn.arg, insn.neg);
    forall s: Subject ensures FieldValue(s.view, ZERO, insn.arg[1]) == Some(Small(0)) {
    }
    assert out != [] ==> out[0] == c;
  }
}
