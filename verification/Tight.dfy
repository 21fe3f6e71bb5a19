/** What inexact cubes hold.  A path keeps every test it can express, whether or not an earlier test was
    dropped. */
module Tight {
  import opened Words
  import opened Fields
  import opened Filter
  import opened Cube
  import opened Constrain
  import opened Split
  import opened Walk
  import Range
  import Addr

  /** What every cube of a packet walk satisfies. */
  predicate Sane(c: Cube) {
    && (c.ver == 0 || c.ver == 4 || c.ver == 6) && c.dir <= 2 && -1 <= c.loopback <= 1 && c.tcpFlags <= c.tcpMask
    && Open(c)
  }

  /** An input of `d` is an input of `c`, and may pass the test unless it was dropped. */
  predicate Narrows(insn: Insn, c: Cube, d: Cube, a: Attrs) {
    d.In(a) ==> c.In(a) && (Dropped(insn, c, a.dir) || May(insn, a))
  }

  lemma SlottedStep(insn: Insn, slot: int)
    requires -1 <= slot <= 1
    ensures var r := Slotted(slot, insn.test, insn.arg, insn.neg);
            BoolStep(insn, slot, r.Some?, if r.Some? then r.value else slot)
  {
  }

  lemma DirectionTight(insn: Insn, c: Cube, d: Cube, a: Attrs)
    requires (insn.field == INBOUND || insn.field == OUTBOUND) && d in DirectionCubes(insn, c) && Sane(c) && a.Valid()
    ensures Sane(d) && Narrows(insn, c, d, a)
  {
    hide Slotted, Cube.In;
    var wantIn := insn.field == INBOUND;
    var slot := DirectionSlot(c, wantIn);
    SlottedStep(insn, slot);
    var slot' := Slotted(slot, insn.test, insn.arg, insn.neg).value;
    DirectionAt(c, wantIn, true, slot', a);
    BoolAt(insn, c, slot, true, slot', d, (a.dir == 1) == wantIn, a);
  }

  lemma LoopbackTight(insn: Insn, c: Cube, d: Cube, a: Attrs)
    requires insn.field == LOOPBACK && d in LoopbackCubes(insn, c) && Sane(c) && a.Valid()
    ensures Sane(d) && Narrows(insn, c, d, a)
  {
    hide Slotted, Cube.In;
    SlottedStep(insn, c.loopback);
    LoopbackAt(c, true, d.loopback, a);
    BoolAt(insn, c, c.loopback, true, d.loopback, d, a.loopback == 1, a);
  }

  lemma VersionTight(insn: Insn, c: Cube, d: Cube, a: Attrs)
    requires (insn.field == IP || insn.field == IPV6) && d in VersionCubes(insn, c) && Sane(c) && a.Valid()
    ensures Sane(d) && Narrows(insn, c, d, a)
  {
    hide Slotted, Cube.In;
    var is4 := insn.field == IP;
    var slot := VersionSlot(c, is4);
    SlottedStep(insn, slot);
    var slot' := Slotted(slot, insn.test, insn.arg, insn.neg).value;
    VersionAt(c, is4, true, slot', a);
    BoolAt(insn, c, slot, true, slot', d, (a.ver == 4) == is4, a);
  }

  lemma FlagTight(insn: Insn, c: Cube, d: Cube, a: Attrs)
    requires IsTcpFlag(insn.field) && d in FlagCubes(insn, c) && Sane(c)
    ensures Sane(d) && Narrows(insn, c, d, a)
  {
    hide Slotted, Cube.In;
    var bit := TcpFlagBit(insn.field);
    var slot := FlagSlot(c, bit);
    SlottedStep(insn, slot);
    var slot' := Slotted(slot, insn.test, insn.arg, insn.neg).value;
    FlagAt(c, bit, true, slot', d, a);
    BoolAt(insn, c, slot, true, slot', d, bit in a.tcpFlags, a);
  }

  lemma KeptIn(c: Cube, ver: nat, proto: u8, d: Cube, a: Attrs)
    requires d in KeptCubes(c, ver, proto) && Sane(c) && (ver == 0 || ver == 4 || ver == 6)
    ensures Sane(d) && (d.In(a) <==> c.In(a) && IsProtocol(a, ver, proto))
  {
    hide Cube.In, Numbered;
    if ver == 0 {
      ProtoIn(c, proto, d, a);
    } else {
      var s := Numbered(c, Proto, EQ, proto)[0];
      ProtoIn(c, proto, s, a);
      VersionedIn(s, ver, d, a);
    }
  }

  lemma OtherIn(c: Cube, ver: nat, proto: u8, d: Cube, a: Attrs)
    requires d in OtherCubes(c, ver, proto) && Sane(c) && (ver == 0 || ver == 4 || ver == 6)
    ensures Sane(d)
    ensures d.In(a) <==> c.In(a) && (ver == 0 || a.ver == ver) && (NoRoom(c, Proto, NEQ, proto) || a.proto != proto)
  {
    hide Cube.In, Numbered, Range.Crowded;
    var s := (if ver == 0 then [c] else Versioned(c, ver))[0];
    if ver != 0 {
      VersionedIn(c, ver, s, a);
    }
    NumberedIn(s, Proto, NEQ, proto, d, a);
  }

  /** The inputs that are not of a protocol, or all of them when it could not be excluded. */
  lemma DroppedIn(c: Cube, ver: nat, proto: u8, d: Cube, a: Attrs)
    requires d in DroppedCubes(c, ver, proto) && Sane(c) && (ver == 0 || ver == 4 || ver == 6)
    ensures Sane(d)
    ensures d.In(a) ==> c.In(a) && (NoRoom(c, Proto, NEQ, proto) || !IsProtocol(a, ver, proto))
  {
    hide Cube.In, OtherCubes, NoRoom;
    if d in OtherCubes(c, ver, proto) {
      OtherIn(c, ver, proto, d, a);
    } else {
      VersionedIn(c, if ver == 4 then 6 else 4, d, a);
    }
  }

  lemma ProtocolTight(insn: Insn, c: Cube, d: Cube, a: Attrs)
    requires ICMP <= insn.field <= ICMPV6 && d in ProtocolCubes(insn, c) && Sane(c)
    ensures Sane(d) && Narrows(insn, c, d, a)
  {
    hide Slotted, Cube.In, KeptCubes, DroppedCubes, NoRoom;
    var proto, ver := ProtocolOf(insn.field), VersionOf(insn.field);
    SlottedStep(insn, -1);
    var slot := Slotted(-1, insn.test, insn.arg, insn.neg).value;
    ProtocolMeets(insn, a, true, slot);
    hide May;
    if slot == 1 {
      KeptIn(c, ver, proto, d, a);
    } else if slot == 0 {
      DroppedIn(c, ver, proto, d, a);
    }
  }

  lemma NumbersTight(insn: Insn, c: Cube, d: Cube, a: Attrs)
    requires IsNumber(insn.field) && d in NumberCubes(insn, c) && Sane(c)
    ensures Sane(d) && Narrows(insn, c, d, a)
  {
    hide Cube.In, May, Dropped, Numbered;
    if d.In(a) {
      NumberTight(insn, c, d, a);
    }
    if !IsTtlOrder(insn) {
      NumberedIn(c, NumberKey(insn.field), insn.test, insn.arg[0], d, a);
    }
  }

  lemma ClampCrowded(a: Addr.Addr, test: Test, arg: Words)
    ensures Addr.Crowded(Clamp(a), test, arg) ==> Addr.Crowded(a, test, arg)
  {
    hide Val;
  }

  lemma AddressTight(insn: Insn, c: Cube, d: Cube, a: Attrs)
    requires IsAddress(insn.field) && d in AddressCubes(insn, c) && Sane(c) && a.Valid()
    requires c.ver == if IsIpv4Address(insn.field) then 4 else 6
    ensures Sane(d) && Narrows(insn, c, d, a)
  {
    var side := AddressSide(insn.field);
    AddressMeets(insn, a, side);
    ClampCrowded(c.Addr(side), insn.test, insn.arg);
    hide Cube.In, Clamp, Addressed, Addr.Crowded, Val, May, Must;
    var e := if IsIpv4Address(insn.field) then c.SetAddr(side, Clamp(c.Addr(side))) else c;
    AddressedIn(e, side, insn.test, insn.arg, d, a);
    if c.ver == 4 {
      ClampKeeps(c, side, a);
    }
  }

  lemma TurnedIn(c: Cube, dir: nat, a: Attrs)
    requires (c.dir == 0 || c.dir == dir) && (dir == 1 || dir == 2)
    ensures c.(dir := dir).In(a) <==> c.In(a) && a.dir == dir
  {
  }

  lemma ForgottenIn(c: Cube, side: Side, s: Cube, a: Attrs)
    requires c.ver == 0 && Open(c) && s == c.SetAddr(side, s.Addr(side)).(exact := s.exact)
    ensures s.SetAddr(side, Addr.FULL).(exact := false) == c.(exact := false)
    ensures c.(exact := false).In(a) <==> c.In(a)
  {
  }

  lemma EndpointTight(insn: Insn, c: Cube, dir: nat, d: Cube, a: Attrs)
    requires IsEndpointAddr(insn.field) && !insn.neg && (dir == 1 || dir == 2) && Sane(c) && a.Valid()
    requires d in EndpointCubes(insn, c, dir)
    ensures Sane(d) && Narrows(insn, c, d, a)
  {
    var side := EndpointSide(insn.field, dir);
    if a.dir == dir {
      AddressMeets(insn, a, side);
    }
    hide Cube.In, Addressed, Addr.Crowded, Val, May, Must, IsMapped;
    hide EndpointSide;
    TurnedIn(c, dir, a);
    NarrowedIn(insn, c.(dir := dir), side, d, a);
  }

  lemma NarrowedIn(insn: Insn, c: Cube, side: Side, d: Cube, a: Attrs)
    requires Sane(c) && d in Narrowed(insn, c, side)
    ensures Sane(d) && d.dir == c.dir
    ensures d.In(a) ==>
            && c.In(a)
            && (|| (c.ver == 0 && insn.test != EQ) || Addr.Crowded(c.Addr(side), insn.test, insn.arg)
                || Holds(insn.test, Val(a.Address(side)), Val(insn.arg)))
  {
    hide Cube.In, Addressed, Addr.Crowded, Val, IsMapped;
    var s := Addressed(c, side, insn.test, insn.arg)[0];
    AddressedIn(c, side, insn.test, insn.arg, s, a);
    if c.ver != 0 {
      AddressedIn(c, side, insn.test, insn.arg, d, a);
    } else if insn.test != EQ {
      ForgottenIn(c, side, s, a);
    } else {
      GuessedIn(s, d.ver, a);
    }
  }

  lemma GuessedIn(s: Cube, ver: nat, a: Attrs)
    requires s.ver == 0
    ensures s.(ver := ver).In(a) ==> s.In(a)
  {
  }

  lemma PortTight(insn: Insn, c: Cube, dir: nat, d: Cube, a: Attrs)
    requires IsEndpointPort(insn.field) && !insn.neg && (dir == 1 || dir == 2) && Sane(c)
    requires d in PortCubes(insn, c, dir)
    ensures Sane(d)
    ensures d.In(a) ==>
            && c.In(a)
            && (a.proto == IPPROTO_TCP || a.proto == IPPROTO_UDP ==>
                  NoRoom(c, PortKey(insn.field, a.dir), insn.test, insn.arg[0]) || May(insn, a))
  {
    var key := PortKey(insn.field, dir);
    if a.dir == dir && (a.proto == IPPROTO_TCP || a.proto == IPPROTO_UDP) {
      PortMeets(insn, a, key, dir);
    }
    hide Cube.In, Numbered, May, Must, Range.Crowded;
    TurnedIn(c, dir, a);
    NumberedIn(c.(dir := dir), key, insn.test, insn.arg[0], d, a);
  }

  lemma PortsTight(insn: Insn, c: Cube, d: Cube, a: Attrs)
    requires IsEndpointPort(insn.field) && !insn.neg && Sane(c) && d in BothPortCubes(insn, c)
    ensures Sane(d)
    ensures d.In(a) ==>
            && c.In(a)
            && (a.proto == IPPROTO_TCP || a.proto == IPPROTO_UDP ==>
                  NoRoom(c, PortKey(insn.field, a.dir), insn.test, insn.arg[0]) || May(insn, a))
  {
    hide Cube.In, PortCubes, May, NoRoom;
    if d in PortCubes(insn, c, 1) {
      PortTight(insn, c, 1, d, a);
    } else {
      PortTight(insn, c, 2, d, a);
    }
  }

  lemma PortsOfTight(insn: Insn, c: Cube, proto: u8, d: Cube, a: Attrs)
    requires IsEndpointPort(insn.field) && !insn.neg && Sane(c) && d in PortsOfCubes(insn, c, proto)
    requires proto == IPPROTO_TCP || proto == IPPROTO_UDP
    ensures Sane(d) && Narrows(insn, c, d, a)
  {
    hide Cube.In, BothPortCubes, Numbered, May, Range.Crowded;
    var s := Numbered(c, Proto, EQ, proto)[0];
    ProtoIn(c, proto, s, a);
    PortsTight(insn, s, d, a);
  }

  lemma NoPortsTight(insn: Insn, c: Cube, d: Cube, a: Attrs)
    requires IsEndpointPort(insn.field) && Sane(c) && d in NoPortsCubes(c)
    requires !c.ProtoIs(IPPROTO_TCP) && !c.ProtoIs(IPPROTO_UDP)
    ensures Sane(d) && Narrows(insn, c, d, a)
  {
    var s := Numbered(c, Proto, NEQ, IPPROTO_TCP)[0];
    var t := Numbered(s, Proto, NEQ, IPPROTO_UDP)[0];
    Range.NarrowHoles(c.proto, IPPROTO_TCP, 255);
    assert |s.proto.excl| <= |c.proto.excl| + 1;
    hide Numbered, Cube.In;
    NumberedIn(c, Proto, NEQ, IPPROTO_TCP, s, a);
    NumberedIn(s, Proto, NEQ, IPPROTO_UDP, t, a);
    InexactIn(t, a);
  }

  lemma InexactIn(c: Cube, a: Attrs)
    ensures c.(exact := false).In(a) <==> c.In(a)
  {
  }

  lemma EndpointPortTight(insn: Insn, c: Cube, d: Cube, a: Attrs)
    requires IsEndpointPort(insn.field) && Sane(c) && d in EndpointPortCubes(insn, c)
    ensures Sane(d) && Narrows(insn, c, d, a)
  {
    hide Cube.In, BothPortCubes, PortsOfCubes, NoPortsCubes, Dropped, May;
    if c.ProtoIs(IPPROTO_TCP) || c.ProtoIs(IPPROTO_UDP) {
      FixedPortTight(insn, c, d, a);
    } else if d in PortsOfCubes(insn, c, IPPROTO_TCP) {
      PortsOfTight(insn, c, IPPROTO_TCP, d, a);
    } else if d in PortsOfCubes(insn, c, IPPROTO_UDP) {
      PortsOfTight(insn, c, IPPROTO_UDP, d, a);
    } else {
      NoPortsTight(insn, c, d, a);
    }
  }

  lemma FixedPortTight(insn: Insn, c: Cube, d: Cube, a: Attrs)
    requires IsEndpointPort(insn.field) && !insn.neg && Sane(c) && d in BothPortCubes(insn, c)
    requires c.ProtoIs(IPPROTO_TCP) || c.ProtoIs(IPPROTO_UDP)
    ensures Sane(d) && Narrows(insn, c, d, a)
  {
    hide BothPortCubes, May, NoRoom;
    PortsTight(insn, c, d, a);
  }

  /** Every cube of an arm, exact or not, lies inside its cube and inside the test, unless that was dropped. */
  lemma ArmsTight(insn: Insn, c: Cube, d: Cube, a: Attrs)
    requires Plain(insn) && insn.field != ZERO && Sane(c) && a.Valid() && d in ArmCubes(insn, c)
    requires HeaderOf(insn.field) == IpHeader ==> c.ver == 4
    requires HeaderOf(insn.field) == Ipv6Header ==> c.ver == 6
    ensures Sane(d) && Narrows(insn, c, d, a)
  {
    hide DirectionCubes, LoopbackCubes, VersionCubes, ProtocolCubes, NumberCubes, FlagCubes, AddressCubes;
    hide EndpointCubes, EndpointPortCubes, Narrows, Open;
    var f := insn.field;
    if f == EVENT {
      ZeroTight(insn, c, a);
    } else if f == INBOUND || f == OUTBOUND {
      DirectionTight(insn, c, d, a);
    } else if f == LOOPBACK {
      LoopbackTight(insn, c, d, a);
    } else if f == IP || f == IPV6 {
      VersionTight(insn, c, d, a);
    } else if ICMP <= f <= ICMPV6 {
      ProtocolTight(insn, c, d, a);
    } else if IsNumber(f) {
      NumbersTight(insn, c, d, a);
    } else if IsTcpFlag(f) {
      FlagTight(insn, c, d, a);
    } else if IsAddress(f) {
      AddressTight(insn, c, d, a);
    } else if IsEndpointAddr(f) {
      EndpointTight(insn, c, if d in EndpointCubes(insn, c, 1) then 1 else 2, d, a);
    } else if IsEndpointPort(f) {
      EndpointPortTight(insn, c, d, a);
    } else {
      UnknownTight(insn, c, a);
    }
  }

  lemma ZeroTight(insn: Insn, c: Cube, a: Attrs)
    requires insn.field == EVENT && Plain(insn) && ZeroTest(insn.test, insn.arg[0], insn.neg)
    ensures Narrows(insn, c, c, a)
  {
    hide Cube.In;
    ZeroTestIsMeets(insn.test, insn.arg, insn.neg);
  }

  lemma UnknownTight(insn: Insn, c: Cube, a: Attrs)
    requires !Known(a, insn.field)
    ensures Sane(c) ==> Sane(c.(exact := false))
    ensures Narrows(insn, c, c.(exact := false), a)
  {
    InexactIn(c, a);
  }

  /** The protocol behind a transport header. */
  function HeaderProtocol(h: Header): u8 {
    match h
    case TcpHeader => IPPROTO_TCP
    case UdpHeader => IPPROTO_UDP
    case IcmpHeader => IPPROTO_ICMP
    case _ => IPPROTO_ICMPV6
  }

  /** The cubes have no room to say that the header of a field is missing. */
  predicate AbsenceDropped(c: Cube, f: Field) {
    var h := HeaderOf(f);
    && (h == TcpHeader || h == UdpHeader || h == IcmpHeader || h == Icmpv6Header)
    && NoRoom(c, Proto, NEQ, HeaderProtocol(h))
  }

  /** The outcomes of a test that a cube does not keep. */
  predicate Lost(insn: Insn, positive: bool, c: Cube, a: Attrs) {
    var f := insn.field;
    if f == ZERO then false
    else if positive then !Known(a, f) || Dropped(insn, c, a.dir)
    else if IsPresence(f) then Dropped(Negated(insn), c, a.dir)
    else if HasAbsentForm(f) then
      Dropped(Negated(insn), c, a.dir) || (!CubeHasHeader(c, f) && AbsenceDropped(c, f))
    else true
  }

  lemma AbsentTight(c: Cube, f: Field, d: Cube, a: Attrs)
    requires HasAbsentForm(f) && Sane(c) && d in AbsentCubes(c, f)
    ensures Sane(d) && (d.In(a) ==> c.In(a) && (AbsenceDropped(c, f) || !a.HasHeader(HeaderOf(f))))
  {
    hide Cube.In, DroppedCubes, NoRoom;
    match HeaderOf(f) {
      case IpHeader => VersionedIn(c, 6, d, a);
      case Ipv6Header => VersionedIn(c, 4, d, a);
      case TcpHeader => DroppedIn(c, 0, IPPROTO_TCP, d, a);
      case UdpHeader => DroppedIn(c, 0, IPPROTO_UDP, d, a);
      case IcmpHeader => DroppedIn(c, 4, IPPROTO_ICMP, d, a);
      case Icmpv6Header => DroppedIn(c, 6, IPPROTO_ICMPV6, d, a);
    }
  }

  /** A required header does not change what is dropped. */
  lemma DroppedThrough(insn: Insn, c: Cube, d: Cube, dir: nat)
    requires d == c.(ver := d.ver, proto := d.proto)
    requires HeaderOf(insn.field) == NoHeader ==> d == c
    requires HeaderOf(insn.field) == IpHeader || HeaderOf(insn.field) == Ipv6Header ==> d.proto == c.proto
    ensures Dropped(insn, d, dir) == Dropped(insn, c, dir)
  {
    hide Range.Crowded, Addr.Crowded;
  }

  lemma ThereTight(insn: Insn, c: Cube, d: Cube, a: Attrs)
    requires Plain(insn) && insn.field != ZERO && Sane(c) && a.Valid() && d in ThereCubes(insn, c)
    ensures Sane(d) && Narrows(insn, c, d, a) && (d.In(a) ==> a.HasHeader(HeaderOf(insn.field)))
  {
    hide Required, ArmCubes, Cube.In, May, Dropped, Attrs.HasHeader, Plain;
    var e := Required(c, insn.field)[0];
    RequiredIn(c, insn.field, e, a);
    ArmsTight(insn, e, d, a);
    DroppedThrough(insn, c, e, a.dir);
  }

  lemma PositiveTight(insn: Insn, c: Cube, d: Cube, s: Subject)
    requires Plain(insn) && insn.field != ZERO && Sane(c) && AgreeingPacket(s) && d in ThereCubes(insn, c)
    ensures Sane(d)
    ensures d.In(s.attrs) ==> c.In(s.attrs) && (Truth(insn, s.view) || Lost(insn, true, c, s.attrs))
  {
    hide ThereCubes, Cube.In, Truth, Dropped, Attrs.HasHeader, AgreeingTransport, Plain;
    ThereTight(insn, c, d, s.attrs);
    TruthBounds(insn, s);
  }

  lemma NegativeTight(insn: Insn, c: Cube, d: Cube, s: Subject)
    requires Plain(insn) && insn.field != ZERO && Sane(c) && AgreeingPacket(s) && d in FailedCubes(insn, c)
    ensures Sane(d)
    ensures d.In(s.attrs) ==> c.In(s.attrs) && (!Truth(insn, s.view) || Lost(insn, false, c, s.attrs))
  {
    hide ThereCubes, ArmCubes, AbsentCubes, Cube.In, Truth, Dropped, Attrs.HasHeader, AgreeingTransport, AbsenceDropped;
    var f, a := insn.field, s.attrs;
    PlainNegated(insn);
    hide Plain;
    if IsPresence(f) || CubeHasHeader(c, f) {
      PresentTight(insn, c, d, s);
    } else if !HasAbsentForm(f) {
      UnknownNegative(c, a);
    } else {
      TruthNegated(insn, s);
      if d in AbsentCubes(c, f) {
        AbsentTight(c, f, d, a);
      } else {
        ThereTight(Negated(insn), c, d, a);
      }
    }
  }

  lemma PlainNegated(insn: Insn)
    requires Plain(insn)
    ensures Plain(Negated(insn))
  {
  }

  lemma UnknownNegative(c: Cube, a: Attrs)
    ensures Sane(c) ==> Sane(c.(exact := false))
    ensures c.(exact := false).In(a) <==> c.In(a)
  {
  }

  lemma PresentTight(insn: Insn, c: Cube, d: Cube, s: Subject)
    requires Plain(Negated(insn)) && insn.field != ZERO && Sane(c) && AgreeingPacket(s)
    requires (IsPresence(insn.field) || CubeHasHeader(c, insn.field)) && d in ArmCubes(Negated(insn), c)
    ensures Sane(d)
    ensures d.In(s.attrs) ==> c.In(s.attrs) && (!Truth(insn, s.view) || Dropped(Negated(insn), c, s.attrs.dir))
  {
    hide ArmCubes, Cube.In, Truth, Dropped, Attrs.HasHeader, AgreeingTransport, Plain;
    ArmsTight(Negated(insn), c, d, s.attrs);
    TruthBounds(insn, s);
    NegatedMust(insn, s.attrs);
  }

  /** Every cube of a branch, exact or not: its packets come from `c`, and the test comes out on them as the
      branch says, unless that outcome is one the cubes cannot keep. */
  lemma BranchTight(insn: Insn, positive: bool, c: Cube, d: Cube, s: Subject)
    requires Plain(insn) && Sane(c) && AgreeingPacket(s) && d in PacketCubes(insn, positive, c)
    ensures Sane(d)
    ensures d.In(s.attrs) ==>
            c.In(s.attrs) && (Truth(insn, s.view) == positive || Lost(insn, positive, c, s.attrs))
  {
    hide ThereCubes, FailedCubes, Cube.In, AgreeingTransport, Lost;
    if insn.field == ZERO {
      ZeroTestIsMeets(insn.test, insn.arg, insn.neg);
    } else if positive {
      PositiveTight(insn, c, d, s);
    } else {
      NegativeTight(insn, c, d, s);
    }
  }

  /** Some path from `l` to ACCEPT keeps the packet: on each of its tests the outcome is the one that leads on, or
      one the cube reached so far cannot keep. */
  ghost predicate Selected(obj: seq<Insn>, l: Label, c: Cube, s: Subject)
    requires Forward(obj) && InObject(l, |obj|)
    decreases Depth(obj, l)
  {
    match l
    case Accept => true
    case Reject => false
    case Jump(i) =>
      exists positive: bool, d: Cube :: d in PacketCubes(obj[i], positive, c) && d.In(s.attrs) &&
        (Truth(obj[i], s.view) == positive || Lost(obj[i], positive, c, s.attrs)) &&
        Selected(obj, Next(obj[i], positive), d, s)
  }

  /** Every packet of a cube that a walk finds took such a path. */
  lemma {:induction false} Traced(obj: seq<Insn>, l: Label, c: Cube, d: Cube, s: Subject)
    requires Lowerable(false, obj) && InObject(l, |obj|) && Sane(c) && AgreeingPacket(s)
    requires d in CubesFrom(false, obj, l, c) && d.In(s.attrs)
    ensures c.In(s.attrs) && Selected(obj, l, c, s)
    decreases Depth(obj, l), 0
  {
    hide PacketCubes, Cube.In, AgreeingPacket, Truth, Lost, Sane, Selected, Plain;
    if l.Jump? {
      var insn := obj[l.target];
      var positive := d in CubesFromAll(false, obj, insn.success, SplitCubes(false, insn, true, c));
      var out := SplitCubes(false, insn, positive, c);
      SplitIsPacket(insn, positive, c);
      forall e | e in out
        ensures Sane(e)
        ensures e.In(s.attrs) ==>
                c.In(s.attrs) && (Truth(insn, s.view) == positive || Lost(insn, positive, c, s.attrs))
      {
        BranchTight(insn, positive, c, e, s);
      }
      var e := TracedAll(obj, Next(insn, positive), out, d, s);
      SelectedStep(obj, l.target, positive, c, e, s);
    } else {
      SelectedEnd(obj, l, c, s);
    }
  }

  lemma SplitIsPacket(insn: Insn, positive: bool, c: Cube)
    ensures SplitCubes(false, insn, positive, c) == PacketCubes(insn, positive, c)
  {
  }

  lemma SelectedEnd(obj: seq<Insn>, l: Label, c: Cube, s: Subject)
    requires Forward(obj) && l.Accept?
    ensures Selected(obj, l, c, s)
  {
  }

  lemma SelectedStep(obj: seq<Insn>, i: nat, positive: bool, c: Cube, d: Cube, s: Subject)
    requires Forward(obj) && i < |obj| && d in PacketCubes(obj[i], positive, c) && d.In(s.attrs)
    requires Truth(obj[i], s.view) == positive || Lost(obj[i], positive, c, s.attrs)
    requires Selected(obj, Next(obj[i], positive), d, s)
    ensures Selected(obj, Jump(i), c, s)
  {
    hide PacketCubes, Cube.In, Truth, Lost;
  }

  lemma {:induction false} TracedAll(obj: seq<Insn>, l: Label, out: seq<Cube>, d: Cube, s: Subject) returns (e: Cube)
    requires Lowerable(false, obj) && InObject(l, |obj|) && AgreeingPacket(s)
    requires (forall e :: e in out ==> Sane(e)) && d in CubesFromAll(false, obj, l, out) && d.In(s.attrs)
    ensures e in out && e.In(s.attrs) && Selected(obj, l, e, s)
    decreases Depth(obj, l), 1, |out|
  {
    hide Cube.In, AgreeingPacket, Sane, Selected, Plain, CubesFrom;
    var last := out[|out| - 1];
    if d in CubesFrom(false, obj, l, last) {
      e := last;
      Traced(obj, l, last, d, s);
    } else {
      e := TracedAll(obj, l, out[..|out| - 1], d, s);
    }
  }

  /** On some path whose cubes keep the packet, an outcome is lost. */
  ghost predicate Loses(obj: seq<Insn>, l: Label, c: Cube, s: Subject)
    requires Forward(obj) && InObject(l, |obj|)
    decreases Depth(obj, l)
  {
    l.Jump? &&
    exists positive: bool, d: Cube :: d in PacketCubes(obj[l.target], positive, c) && d.In(s.attrs) &&
      (Lost(obj[l.target], positive, c, s.attrs) || Loses(obj, Next(obj[l.target], positive), d, s))
  }

  /** Where no outcome is lost, the selected packets are accepted. */
  lemma {:induction false} SelectedIsAccepted(obj: seq<Insn>, l: Label, c: Cube, s: Subject)
    requires Forward(obj) && InObject(l, |obj|) && Selected(obj, l, c, s) && !Loses(obj, l, c, s)
    ensures Accepts(obj, l, s.view)
    decreases Depth(obj, l)
  {
    hide PacketCubes, Cube.In, Truth, Lost;
    if l.Jump? {
      var positive: bool, d: Cube :| d in PacketCubes(obj[l.target], positive, c) && d.In(s.attrs) &&
        (Truth(obj[l.target], s.view) == positive || Lost(obj[l.target], positive, c, s.attrs)) &&
        Selected(obj, Next(obj[l.target], positive), d, s);
      SelectedIsAccepted(obj, Next(obj[l.target], positive), d, s);
    }
  }
}
