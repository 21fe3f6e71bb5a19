/** When cubes stay exact: a step clears the flag only for an outcome that its cubes cannot keep. */
module Exactness {
  import opened Words
  import opened Fields
  import opened Filter
  import opened Cube
  import opened Constrain
  import opened Split
  import opened SplitEvent
  import opened Walk
  import opened Tight
  import Range
  import Addr

  predicate HasSlot(f: Field) {
    IsPresence(f) || IsNumber(f) || IsTcpFlag(f) || IsAddress(f) || IsEndpointAddr(f) || IsEndpointPort(f)
  }

  predicate FixedPorts(c: Cube) { c.ProtoIs(IPPROTO_TCP) || c.ProtoIs(IPPROTO_UDP) }

  /** The tests that are widened: those without a rule slot, the dropped ones, and a port of an open protocol. */
  predicate Clears(insn: Insn, c: Cube, dir: nat) {
    !HasSlot(insn.field) || Dropped(insn, c, dir) || (IsEndpointPort(insn.field) && !FixedPorts(c))
  }

  lemma NumberedExact(c: Cube, key: Key, test: Test, arg: u32, d: Cube)
    requires d in Numbered(c, key, test, arg)
    ensures d.exact <==> c.exact && !NoRoom(c, key, test, arg)
    ensures d.dir == c.dir
  {
    hide Range.Narrow, Range.Crowded;
  }

  lemma AddressedExact(c: Cube, side: Side, test: Test, arg: Words, d: Cube)
    requires d in Addressed(c, side, test, arg)
    ensures d.exact <==> c.exact && !Addr.Crowded(c.Addr(side), test, arg)
    ensures d.dir == c.dir
  {
    hide Addr.Narrow, Addr.Crowded;
  }

  lemma DroppedExact(c: Cube, ver: nat, proto: u8, d: Cube)
    requires d in DroppedCubes(c, ver, proto)
    ensures c.exact && !NoRoom(c, Proto, NEQ, proto) ==> d.exact
  {
    hide Numbered, NoRoom;
    if d in OtherCubes(c, ver, proto) {
      var e := (if ver == 0 then [c] else Versioned(c, ver))[0];
      NumberedExact(e, Proto, NEQ, proto, d);
      assert NoRoom(e, Proto, NEQ, proto) == NoRoom(c, Proto, NEQ, proto) by { SameRoom(c, e, proto); }
    }
  }

  lemma SameRoom(c: Cube, e: Cube, proto: u8)
    requires e.proto == c.proto
    ensures NoRoom(e, Proto, NEQ, proto) == NoRoom(c, Proto, NEQ, proto)
  {
  }

  lemma ProtocolExact(insn: Insn, c: Cube, d: Cube)
    requires ICMP <= insn.field <= ICMPV6 && d in ProtocolCubes(insn, c)
    ensures c.exact && !NoRoom(c, Proto, NEQ, ProtocolOf(insn.field)) ==> d.exact
  {
    hide Slotted, Numbered, DroppedCubes, NoRoom;
    var proto, ver := ProtocolOf(insn.field), VersionOf(insn.field);
    var slot := Slotted(-1, insn.test, insn.arg, insn.neg).value;
    if slot == 1 {
      var e := Numbered(c, Proto, EQ, proto)[0];
      NumberedExact(c, Proto, EQ, proto, e);
      EqualFits(c, proto);
      if ver == 0 {
        NumberedExact(c, Proto, EQ, proto, d);
      }
    } else if slot >= 0 {
      DroppedExact(c, ver, proto, d);
    }
  }

  lemma EqualFits(c: Cube, proto: u8)
    ensures !NoRoom(c, Proto, EQ, proto)
  {
  }

  lemma AddressExact(insn: Insn, c: Cube, d: Cube)
    requires IsAddress(insn.field) && d in AddressCubes(insn, c)
    ensures c.exact && !Addr.Crowded(c.Addr(AddressSide(insn.field)), insn.test, insn.arg) ==> d.exact
  {
    var side := AddressSide(insn.field);
    ClampCrowded(c.Addr(side), insn.test, insn.arg);
    hide Clamp, Addressed, Addr.Crowded;
    var e := if IsIpv4Address(insn.field) then c.SetAddr(side, Clamp(c.Addr(side))) else c;
    AddressedExact(e, side, insn.test, insn.arg, d);
  }

  lemma EndpointExact(insn: Insn, c: Cube, dir: nat, d: Cube)
    requires IsEndpointAddr(insn.field) && d in EndpointCubes(insn, c, dir)
    ensures d.dir == dir && (c.exact && !Dropped(insn, c, dir) ==> d.exact)
  {
    hide Addressed, Addr.Crowded, IsMapped;
    var e, side := c.(dir := dir), EndpointSide(insn.field, dir);
    AddressedExact(e, side, insn.test, insn.arg, Addressed(e, side, insn.test, insn.arg)[0]);
    if c.ver != 0 {
      AddressedExact(e, side, insn.test, insn.arg, d);
    }
  }

  lemma PortExact(insn: Insn, c: Cube, d: Cube)
    requires IsEndpointPort(insn.field) && FixedPorts(c) && d in EndpointPortCubes(insn, c)
    ensures c.exact && !NoRoom(c, PortKey(insn.field, d.dir), insn.test, insn.arg[0]) ==> d.exact
  {
    hide Numbered, Range.Crowded;
    var dir := if d in PortCubes(insn, c, 1) then 1 else 2;
    NumberedExact(c.(dir := dir), PortKey(insn.field, dir), insn.test, insn.arg[0], d);
  }

  lemma NumberExact(insn: Insn, c: Cube, d: Cube)
    requires IsNumber(insn.field) && d in NumberCubes(insn, c)
    ensures c.exact && !Dropped(insn, c, d.dir) ==> d.exact
  {
    hide Numbered, NoRoom;
    if !IsTtlOrder(insn) {
      NumberedExact(c, NumberKey(insn.field), insn.test, insn.arg[0], d);
    }
  }

  lemma ArmExact(insn: Insn, c: Cube, d: Cube)
    requires insn.field != ZERO && d in ArmCubes(insn, c)
    ensures c.exact && !Clears(insn, c, d.dir) ==> d.exact
  {
    hide ProtocolCubes, NumberCubes, AddressCubes, EndpointCubes, EndpointPortCubes, NoRoom, Addr.Crowded, Slotted;
    var f := insn.field;
    if ICMP <= f <= ICMPV6 {
      ProtocolExact(insn, c, d);
    } else if IsNumber(f) {
      NumberExact(insn, c, d);
    } else if IsAddress(f) {
      AddressExact(insn, c, d);
    } else if IsEndpointAddr(f) {
      EndpointExact(insn, c, if d in EndpointCubes(insn, c, 1) then 1 else 2, d);
    } else if IsEndpointPort(f) {
      if FixedPorts(c) {
        PortExact(insn, c, d);
      }
    }
  }

  /** The outcomes of a packet test that clear the flag. */
  predicate ClearsBranch(insn: Insn, positive: bool, c: Cube, dir: nat) {
    var f := insn.field;
    if f == ZERO then false
    else if positive then Clears(insn, c, dir)
    else if IsPresence(f) then Clears(Negated(insn), c, dir)
    else if HasAbsentForm(f) then
      Clears(Negated(insn), c, dir) || (!CubeHasHeader(c, f) && AbsenceDropped(c, f))
    else true
  }

  lemma RequiredExact(c: Cube, f: Field, d: Cube)
    requires d in Required(c, f)
    ensures d.exact == c.exact
  {
    hide Range.Narrow;
  }

  lemma ThereExact(insn: Insn, c: Cube, d: Cube)
    requires insn.field != ZERO && d in ThereCubes(insn, c)
    ensures c.exact && !Clears(insn, c, d.dir) ==> d.exact
  {
    hide Required, ArmCubes, Dropped, HasSlot;
    var e := Required(c, insn.field)[0];
    RequiredExact(c, insn.field, e);
    var a := Attrs(4, ZEROES, ZEROES, 0, 0, 0, 0, {}, 1, 0, 0, 0);
    RequiredIn(c, insn.field, e, a);
    DroppedThrough(insn, c, e, d.dir);
    ArmExact(insn, e, d);
  }

  lemma AbsentExact(c: Cube, f: Field, d: Cube)
    requires HasAbsentForm(f) && d in AbsentCubes(c, f)
    ensures c.exact && !AbsenceDropped(c, f) ==> d.exact
  {
    hide DroppedCubes, NoRoom;
    match HeaderOf(f) {
      case IpHeader =>
      case Ipv6Header =>
      case TcpHeader => DroppedExact(c, 0, IPPROTO_TCP, d);
      case UdpHeader => DroppedExact(c, 0, IPPROTO_UDP, d);
      case IcmpHeader => DroppedExact(c, 4, IPPROTO_ICMP, d);
      case Icmpv6Header => DroppedExact(c, 6, IPPROTO_ICMPV6, d);
    }
  }

  /** A step of a packet walk keeps the exact flag unless the outcome is one its cubes cannot keep. */
  lemma BranchExact(insn: Insn, positive: bool, c: Cube, d: Cube)
    requires d in PacketCubes(insn, positive, c)
    ensures c.exact && !ClearsBranch(insn, positive, c, d.dir) ==> d.exact
  {
    hide ThereCubes, ArmCubes, AbsentCubes, Clears, AbsenceDropped;
    var f := insn.field;
    if f == ZERO {
    } else if positive {
      ThereExact(insn, c, d);
    } else if IsPresence(f) || CubeHasHeader(c, f) {
      ArmExact(Negated(insn), c, d);
    } else if HasAbsentForm(f) {
      if d in AbsentCubes(c, f) {
        AbsentExact(c, f, d);
      } else {
        ThereExact(Negated(insn), c, d);
      }
    }
  }

  /** The event tests a cube has no place for. */
  predicate EventDropped(insn: Insn, c: Cube) {
    var f := insn.field;
    || !IsEventKnown(f)
    || (IsEventNumber(f) && NoRoom(c, EventKey(f), insn.test, insn.arg[0]))
    || (IsEndpointAddr(f) && Addr.Crowded(c.Addr(EndOf(f)), insn.test, insn.arg))
    || ((f == TCP || f == UDP) && NoRoom(c, Proto, NEQ, TransportOf(f)))
  }

  function Outcome(insn: Insn, positive: bool): Insn {
    if positive then insn else Negated(insn)
  }

  lemma TransportTight(insn: Insn, c: Cube, d: Cube, s: Subject)
    requires (insn.field == TCP || insn.field == UDP) && AgreeingEvent(s) && d in TransportCubes(insn, c)
    ensures d.In(s.attrs) ==> c.In(s.attrs) && (Truth(insn, s.view) || NoRoom(c, Proto, NEQ, TransportOf(insn.field)))
    ensures c.exact && !NoRoom(c, Proto, NEQ, TransportOf(insn.field)) ==> d.exact
  {
    var proto := TransportOf(insn.field);
    assert FieldValue(s.view, insn.field, insn.arg[1]) == Some(Bool(s.attrs.proto == proto));
    SlottedStep(insn, -1);
    assert Fits(-1, true) && Fits(-1, false);
    hide Cube.In, Slotted, Numbered, Range.Crowded;
    var slot := Slotted(-1, insn.test, insn.arg, insn.neg).value;
    if slot >= 0 {
      var test := if slot == 1 then EQ else NEQ;
      NumberedIn(c, Proto, test, proto, d, s.attrs);
      NumberedExact(c, Proto, test, proto, d);
      EqualFits(c, proto);
    }
  }

  /** A successful event test: every cube, exact or not, lies inside `c` and inside the test unless that was dropped,
      and the flag is cleared only then. */
  lemma MetTight(insn: Insn, c: Cube, d: Cube, s: Subject)
    requires PlainEvent(insn) && insn.field != ZERO && AgreeingEvent(s) && d in MetCubes(insn, c)
    ensures d.In(s.attrs) ==> c.In(s.attrs) && (Truth(insn, s.view) || EventDropped(insn, c))
    ensures c.exact && !EventDropped(insn, c) ==> d.exact
  {
    hide Cube.In, Truth, Numbered, Addressed, TransportCubes, AgreeingEvent, Range.Crowded, Addr.Crowded, Val;
    var f := insn.field;
    if IsEventNumber(f) {
      EventNumberTruth(insn, s);
      NumberedIn(c, EventKey(f), insn.test, insn.arg[0], d, s.attrs);
      NumberedExact(c, EventKey(f), insn.test, insn.arg[0], d);
    } else if IsEndpointAddr(f) {
      EventAddressTruth(insn, s);
      AddressedIn(c, EndOf(f), insn.test, insn.arg, d, s.attrs);
      AddressedExact(c, EndOf(f), insn.test, insn.arg, d);
    } else if f == IP || f == IPV6 {
      ZeroTruth(insn, s);
    } else if f == TCP || f == UDP {
      TransportTight(insn, c, d, s);
    } else {
      InexactIn(c, s.attrs);
    }
  }

  lemma ZeroTruth(insn: Insn, s: Subject)
    requires (insn.field == IP || insn.field == IPV6) && PlainEvent(insn) && AgreeingEvent(s)
    ensures Truth(insn, s.view) <==> ZeroTest(insn.test, insn.arg[0], insn.neg)
  {
    ZeroTestIsMeets(insn.test, insn.arg, insn.neg);
  }

  /** A step of an event walk. */
  lemma EventTight(insn: Insn, positive: bool, c: Cube, d: Cube, s: Subject)
    requires PlainEvent(insn) && insn.field != ZERO && AgreeingEvent(s) && d in EventCubes(insn, positive, c)
    ensures d.In(s.attrs) ==>
            c.In(s.attrs) && (Truth(insn, s.view) == positive || EventDropped(Outcome(insn, positive), c))
    ensures c.exact && !EventDropped(Outcome(insn, positive), c) ==> d.exact
  {
    hide Cube.In, Truth, MetCubes, AgreeingEvent, NoRoom, Addr.Crowded;
    MetTight(Outcome(insn, positive), c, d, s);
    if IsEventKnown(insn.field) {
      NegatedTruth(insn, s);
    }
  }

  /** The outcomes that clear the flag, on either kind of layer. */
  predicate ClearsStep(eventMode: bool, insn: Insn, positive: bool, c: Cube, dir: nat) {
    if insn.field == ZERO then false
    else if eventMode then EventDropped(Outcome(insn, positive), c)
    else ClearsBranch(insn, positive, c, dir)
  }

  /** Some path from `l` clears the flag. */
  predicate Widens(eventMode: bool, obj: seq<Insn>, l: Label, c: Cube)
    requires Forward(obj) && InObject(l, |obj|)
    decreases Depth(obj, l)
  {
    l.Jump? && exists positive: bool, d ::
      d in SplitCubes(eventMode, obj[l.target], positive, c) &&
      (ClearsStep(eventMode, obj[l.target], positive, c, d.dir) ||
       Widens(eventMode, obj, Next(obj[l.target], positive), d))
  }

  lemma StepExact(eventMode: bool, insn: Insn, positive: bool, c: Cube, d: Cube)
    requires d in SplitCubes(eventMode, insn, positive, c) && (eventMode ==> PlainEvent(insn))
    ensures c.exact && !ClearsStep(eventMode, insn, positive, c, d.dir) ==> d.exact
  {
    hide EventCubes, PacketCubes, EventDropped, ClearsBranch;
    if insn.field != ZERO {
      if eventMode {
        var v := EventView(0, 0, 0, ZEROES, ZEROES, 0, 0, (f: Field, i: u32) => None);
        EventTight(insn, positive, c, d, Subject(v, Attrs(0, ZEROES, ZEROES, 0, 0, 0, 0, {}, 0, 0, 0, 0)));
      } else {
        BranchExact(insn, positive, c, d);
      }
    }
  }

  /** Unless some path widens its cube, all cubes of a filter are exact. */
  lemma {:induction false} WalkExact(eventMode: bool, obj: seq<Insn>, l: Label, c: Cube, d: Cube)
    requires Lowerable(eventMode, obj) && InObject(l, |obj|) && c.exact && !Widens(eventMode, obj, l, c)
    requires d in CubesFrom(eventMode, obj, l, c)
    ensures d.exact
    decreases Depth(obj, l), 0
  {
    hide SplitCubes, ClearsStep, PlainEvent, Plain;
    if l.Jump? {
      var insn := obj[l.target];
      var positive := d in CubesFromAll(eventMode, obj, insn.success, SplitCubes(eventMode, insn, true, c));
      var out := SplitCubes(eventMode, insn, positive, c);
      forall e | e in out ensures e.exact && !Widens(eventMode, obj, Next(insn, positive), e) {
        StepExact(eventMode, insn, positive, c, e);
      }
      WalkExactAll(eventMode, obj, Next(insn, positive), out, d);
    }
  }

  lemma {:induction false} WalkExactAll(eventMode: bool, obj: seq<Insn>, l: Label, out: seq<Cube>, d: Cube)
    requires Lowerable(eventMode, obj) && InObject(l, |obj|) && d in CubesFromAll(eventMode, obj, l, out)
    requires forall e :: e in out ==> e.exact && !Widens(eventMode, obj, l, e)
    ensures d.exact
    decreases Depth(obj, l), 1, |out|
  {
    hide Widens, PlainEvent, Plain, CubesFrom;
    var last := out[|out| - 1];
    if d in CubesFrom(eventMode, obj, l, last) {
      WalkExact(eventMode, obj, l, last, d);
    } else {
      WalkExactAll(eventMode, obj, l, out[..|out| - 1], d);
    }
  }
}
