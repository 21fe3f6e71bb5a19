/** One branch of one test of a FLOW or SOCKET filter.  Events have no headers, so a
    failed test is the negated test. */
module SplitEvent {
  import opened Words
  import opened Fields
  import opened Filter
  import opened Cube
  import opened Constrain
  import opened Split

  predicate IsEventNumber(f: Field) {
    f == EVENT || f == PROCESSID || f == PROTOCOL || f == LOCALPORT || f == REMOTEPORT
  }

  predicate PlainEvent(insn: Insn) {
    && (insn.neg ==> !IsEventNumber(insn.field) && !IsEndpointAddr(insn.field))
    && (insn.neg && insn.arg[0] == 0 ==> insn.field != ZERO && insn.field != IP && insn.field != IPV6)
  }

  predicate IsEventKnown(f: Field) {
    f == ZERO || IsEventNumber(f) || IsEndpointAddr(f) || f == IP || f == IPV6 || f == TCP || f == UDP
  }

  function EventKey(f: Field): Key
    requires IsEventNumber(f)
  {
    if f == EVENT then EventKind else if f == PROCESSID then Pid else if f == PROTOCOL then Proto
    else if f == LOCALPORT then Sport else Dport
  }

  function EndOf(f: Field): Side { if f == LOCALADDR then Src else Dst }

  function TransportOf(f: Field): u8 { if f == TCP then IPPROTO_TCP else IPPROTO_UDP }

  /** What a successful test leaves of a cube. */
  function MetCubes(insn: Insn, c: Cube): seq<Cube> {
    var f := insn.field;
    if (IsEventNumber(f) || IsEndpointAddr(f)) && insn.neg then []
    else if IsEventNumber(f) then Numbered(c, EventKey(f), insn.test, insn.arg[0])
    else if IsEndpointAddr(f) then Addressed(c, EndOf(f), insn.test, insn.arg)
    else if f == IP || f == IPV6 then If(ZeroTest(insn.test, insn.arg[0], insn.neg), c)
    else if f == TCP || f == UDP then TransportCubes(insn, c)
    else [c.(exact := false)]
  }

  function TransportCubes(insn: Insn, c: Cube): seq<Cube> {
    match Slotted(-1, insn.test, insn.arg, insn.neg)
    case None => []
    case Some(slot) =>
      if slot < 0 then [c] else Numbered(c, Proto, if slot == 1 then EQ else NEQ, TransportOf(insn.field))
  }

  /** What one outcome of an event test leaves of a cube. */
  function EventCubes(insn: Insn, positive: bool, c: Cube): seq<Cube> {
    MetCubes(if positive then insn else Negated(insn), c)
  }

  /** What a step that meets the test with the kernel's side of an event owes. */
  ghost predicate Meeting(insn: Insn, c: Cube, out: seq<Cube>) {
    && Steps(true, c, out)
    && (forall s: Subject :: AgreeingEvent(s) && c.In(s.attrs) && Truth(insn, s.view) ==>
          exists k :: 0 <= k < |out| && out[k].In(s.attrs))
    && (forall k, s: Subject :: 0 <= k < |out| && out[k].exact && AgreeingEvent(s) && out[k].In(s.attrs) ==>
          c.exact && c.In(s.attrs) && Truth(insn, s.view))
  }

  lemma SingleEvent(insn: Insn, c: Cube, ok: bool, c': Cube)
    requires ok ==> c'.Valid() && SamePacketPart(c, c')
    requires forall s: Subject :: AgreeingEvent(s) && c.In(s.attrs) && Truth(insn, s.view) ==> ok && c'.In(s.attrs)
    requires ok && c'.exact ==> c.exact
    requires ok && c'.exact ==>
               forall s: Subject :: AgreeingEvent(s) && c'.In(s.attrs) ==> c.In(s.attrs) && Truth(insn, s.view)
    ensures Meeting(insn, c, If(ok, c'))
  {
    hide Truth, Cube.In, AgreeingEvent;
    if ok {
      assert If(ok, c')[0] == c';
    }
  }

  lemma EventNumberTruth(insn: Insn, s: Subject)
    requires IsEventNumber(insn.field) && PlainEvent(insn) && AgreeingEvent(s)
    ensures var n := s.attrs.Number(EventKey(insn.field));
            (Truth(insn, s.view) <==> Holds(insn.test, n, insn.arg[0])) && n <= EventKey(insn.field).Max()
  {
    var n := s.attrs.Number(EventKey(insn.field));
    assert FieldValue(s.view, insn.field, insn.arg[1]) == Some(Small(n));
  }

  method EventNumber(insn: Insn, c: Cube) returns (out: seq<Cube>)
    requires c.Valid() && IsEventNumber(insn.field) && PlainEvent(insn)
    ensures Meeting(insn, c, out)
    ensures StayOffBlock(insn, c, out) && out == Numbered(c, EventKey(insn.field), insn.test, insn.arg[0])
  {
    hide Cube.In, Truth, AgreeingEvent, Attrs.Number, Numbered;
    var key := EventKey(insn.field);
    var ok, c' := Number(c, key, insn.test, insn.arg[0]);
    forall s: Subject | AgreeingEvent(s)
      ensures Truth(insn, s.view) <==> Holds(insn.test, s.attrs.Number(key), insn.arg[0])
      ensures s.attrs.Number(key) <= key.Max()
    {
      EventNumberTruth(insn, s);
    }
    SingleEvent(insn, c, ok, c');
    out := If(ok, c');
  }

  lemma EventAddressTruth(insn: Insn, s: Subject)
    requires IsEndpointAddr(insn.field) && PlainEvent(insn) && AgreeingEvent(s)
    ensures Truth(insn, s.view) <==> Holds(insn.test, Val(s.attrs.Address(EndOf(insn.field))), Val(insn.arg))
  {
    CompareBig(s.attrs.Address(EndOf(insn.field)), insn.arg, insn.test);
  }

  method EventAddress(insn: Insn, c: Cube) returns (out: seq<Cube>)
    requires c.Valid() && IsEndpointAddr(insn.field) && PlainEvent(insn)
    ensures Meeting(insn, c, out)
    ensures StayOffBlock(insn, c, out) && out == Addressed(c, EndOf(insn.field), insn.test, insn.arg)
  {
    hide Cube.In, Addressed, Val, Truth, AgreeingEvent, Attrs.Address;
    var side := EndOf(insn.field);
    var ok, c' := Address(c, side, insn.test, insn.arg);
    if ok {
      NarrowedStays(c.Addr(side), c'.Addr(side), insn.test, insn.arg);
    }
    forall s: Subject | AgreeingEvent(s)
      ensures Truth(insn, s.view) <==> Holds(insn.test, Val(s.attrs.Address(side)), Val(insn.arg))
    {
      EventAddressTruth(insn, s);
    }
    SingleEvent(insn, c, ok, c');
    out := If(ok, c');
  }

  method EventProtocol(insn: Insn, c: Cube) returns (out: seq<Cube>)
    requires c.Valid() && (insn.field == TCP || insn.field == UDP)
    ensures Meeting(insn, c, out)
    ensures StayOffBlock(insn, c, out) && out == TransportCubes(insn, c)
  {
    hide Cube.In, Slotted, Numbered;
    var proto := TransportOf(insn.field);
    var ok, slot := ApplyBool(-1, insn.test, insn.arg, insn.neg);
    forall s: Subject | AgreeingEvent(s)
      ensures Truth(insn, s.view) <==> ok && Fits(slot, s.attrs.proto == proto)
    {
      assert Fits(-1, true) && Fits(-1, false);
      assert FieldValue(s.view, insn.field, insn.arg[1]) == Some(Bool(s.attrs.proto == proto));
    }
    hide Truth, AgreeingEvent;
    var c' := c;
    if ok && slot >= 0 {
      ok, c' := Number(c, Proto, if slot == 1 then EQ else NEQ, proto);
    }
    SingleEvent(insn, c, ok, c');
    out := If(ok, c');
  }

  /** The cubes for a test of an event that must succeed. */
  method MeetEvent(insn: Insn, c: Cube) returns (out: seq<Cube>)
    requires c.Valid() && insn.field != ZERO
    ensures Steps(true, c, out)
    ensures PlainEvent(insn) ==> Meeting(insn, c, out)
    ensures !IsEventKnown(insn.field) ==> |out| == 1 && !out[0].exact && forall a: Attrs :: c.In(a) ==> out[0].In(a)
    ensures StayOffBlock(insn, c, out) && out == MetCubes(insn, c)
  {
    hide Numbered, Addressed, TransportCubes;
    var f := insn.field;
    if (IsEventNumber(f) || IsEndpointAddr(f)) && insn.neg {
      out := [];
    } else if IsEventNumber(f) {
      out := EventNumber(insn, c);
    } else if IsEndpointAddr(f) {
      out := EventAddress(insn, c);
    } else if f == IP || f == IPV6 {
      var ok := ZeroTest(insn.test, insn.arg[0], insn.neg);
      out := If(ok, c);
      if PlainEvent(insn) {
        ZeroTestIsMeets(insn.test, insn.arg, insn.neg);
        SingleEvent(insn, c, ok, c);
      }
    } else if f == TCP || f == UDP {
      out := EventProtocol(insn, c);
    } else {
      var w := c.(exact := false);
      SameNumbers(c, w);
      assert forall a: Attrs :: c.In(a) <==> w.In(a);
      SingleEvent(insn, c, true, w);
      out := If(true, w);
    }
  }

  lemma NegatedTruth(insn: Insn, s: Subject)
    requires AgreeingEvent(s) && IsEventKnown(insn.field)
    ensures Truth(Negated(insn), s.view) <==> !Truth(insn, s.view)
  {
    assert FieldValue(s.view, insn.field, insn.arg[1]).Some?;
  }

  /** The cubes for one outcome of an event test. */
  method EventBranch(insn: Insn, positive: bool, c: Cube) returns (out: seq<Cube>)
    requires c.Valid() && insn.field != ZERO
    ensures Steps(true, c, out)
    ensures PlainEvent(insn) ==> Complete(true, insn, positive, c, out) && Precise(true, insn, positive, c, out)
    ensures StayOffBlock(insn, c, out) && out == EventCubes(insn, positive, c)
  {
    hide MetCubes;
    out := MeetEvent(if positive then insn else Negated(insn), c);
    if IsEventKnown(insn.field) {
      forall s: Subject | AgreeingEvent(s) ensures Truth(Negated(insn), s.view) <==> !Truth(insn, s.view) {
        NegatedTruth(insn, s);
      }
    }
    hide Truth, AgreeingEvent, Cube.In;
    assert PlainEvent(insn) ==> PlainEvent(Negated(insn));
  }
}
