/** Lowering FLOW and SOCKET filters to event rules, and the kernel's decision on them. */
module EventRules {
  import opened Words
  import opened Fields
  import opened Filter
  import opened Cube
  import opened Bits
  import opened Rules
  import opened Encode
  import opened EncodeAddress
  import opened Walk
  import opened Reach
  import Range
  import Addr

  const EVENT_RULES_MAX := 32

  /** A condition on a 32-bit number. */
  datatype Slot32 = Slot32(active: bool, invert: bool, lo: u32, hi: u32) {
    predicate Accepts(v: nat) {
      active ==> (lo <= v <= hi) != invert
    }
  }

  /** A condition on an address in network byte order. */
  datatype NetSlot = NetSlot(active: bool, invert: bool, addr: Bytes16, mask: Bytes16) {
    predicate Accepts(x: Bytes16) {
      active ==> NetMatch(x, addr, mask) != invert
    }
  }

  /** A rule: each slot's `active` and `invert` are its bits of the two masks; `events` is the
      event mask as a set of bit positions. */
  datatype EventRule = EventRule(enabled: bool, events: Option<set<nat>>, proto: Slot32, lport: Slot32, rport: Slot32,
                                 pid: Slot32, laddr: NetSlot, raddr: NetSlot)

  /** An event as the kernel builds it, addresses in network byte order. */
  datatype Event = Event(event: nat, protocol: u8, pid: u32, localPort: u16, remotePort: u16,
                         local: Bytes16, remote: Bytes16)

  /** Two 64-bit halves compared by exclusive or. */
  predicate NetMatch(a: Bytes16, ip: Bytes16, mask: Bytes16) {
    && And(Xor(Load(a[..8]), Load(ip[..8])), Load(mask[..8])) == 0
    && And(Xor(Load(a[8..]), Load(ip[8..])), Load(mask[8..])) == 0
  }

  predicate RuleMatches(r: EventRule, e: Event) {
    && r.enabled
    && (r.events.Some? ==> e.event in r.events.value)
    && r.proto.Accepts(e.protocol)
    && r.lport.Accepts(e.localPort)
    && r.rport.Accepts(e.remotePort)
    && r.pid.Accepts(e.pid)
    && r.laddr.Accepts(e.local)
    && r.raddr.Accepts(e.remote)
  }

  /** Network bytes back to host words. */
  function FromNet(b: Bytes16): Words {
    [FromBytes(b[12..16]), FromBytes(b[8..12]), FromBytes(b[4..8]), FromBytes(b[0..4])]
  }

  function FromBytes(b: seq<u8>): u32
    requires |b| == 4
  {
    var b0: nat, b1: nat, b2: nat, b3: nat := b[0], b[1], b[2], b[3];
    b0 * 0x100_0000 + b1 * 0x1_0000 + b2 * 0x100 + b3
  }

  lemma WordRoundTrip(b: seq<u8>)
    requires |b| == 4
    ensures WordBytes(FromBytes(b)) == b
  {
    var x := FromBytes(b);
    var b0: nat, b1: nat, b2: nat, b3: nat := b[0], b[1], b[2], b[3];
    assert x == ((b0 * 0x100 + b1) * 0x100 + b2) * 0x100 + b3;
    assert x / 0x100 == (b0 * 0x100 + b1) * 0x100 + b2;
    assert x / 0x1_0000 == b0 * 0x100 + b1;
    assert x / 0x100_0000 == b0;
  }

  /** Reading an address into words and writing it back changes nothing. */
  lemma NetRoundTrip(b: Bytes16)
    ensures ToNet(FromNet(b)) == b
  {
    hide FromBytes, WordBytes;
    WordRoundTrip(b[0..4]);
    WordRoundTrip(b[4..8]);
    WordRoundTrip(b[8..12]);
    WordRoundTrip(b[12..16]);
  }

  /** The event's comparison is the comparison of the 128-bit numbers. */
  lemma NetMatchIsMasked(x: Bytes16, ip: Words, mask: Words)
    ensures NetMatch(x, ToNet(ip), ToNet(mask)) <==> MaskedEq(Val(FromNet(x)), Val(ip), Val(mask))
  {
    hide And, Xor, ToNet, FromNet;
    NetRoundTrip(x);
    NetCompare(FromNet(x), ip, mask);
    AndXor(Load(x[..8]), Load(ToNet(ip)[..8]), Load(ToNet(mask)[..8]));
    AndXor(Load(x[8..]), Load(ToNet(ip)[8..]), Load(ToNet(mask)[8..]));
  }

  method EncodeRange32(r: Range.Range, max: u32) returns (whole: bool, s: Slot32)
    requires r.Valid(max)
    ensures forall v :: 0 <= v <= max && r.Has(v) ==> s.Accepts(v)
    ensures whole ==> forall v :: 0 <= v <= max && s.Accepts(v) ==> r.Has(v)
    ensures (whole <==> FitsRange(r, max)) && (s.active <==> !r.IsFull(max))
    ensures s.invert <==> |r.excl| == 1 && r.lo == 0 && r.hi == max
    ensures s.active && !s.invert ==> s.lo == r.lo && s.hi == r.hi
    ensures s.invert ==> s.active && s.lo == s.hi
  {
    if r.IsFull(max) {
      return true, Slot32(false, false, 0, 0);
    }
    if |r.excl| == 0 {
      return true, Slot32(true, false, r.lo, r.hi);
    }
    if |r.excl| == 1 && r.lo == 0 && r.hi == max {
      return true, Slot32(true, true, r.excl[0], r.excl[0]);
    }
    return false, Slot32(true, false, r.lo, r.hi);
  }

  /** Protocol ranges are not supported: anything but one value, or all but one, is dropped. */
  method EncodeProto(r: Range.Range) returns (whole: bool, s: Slot32)
    requires r.Valid(255)
    ensures forall v :: 0 <= v <= 255 && r.Has(v) ==> s.Accepts(v)
    ensures whole ==> forall v :: 0 <= v <= 255 && s.Accepts(v) ==> r.Has(v)
    ensures whole <==> FitsValue(r)
  {
    whole, s := EncodeRange32(r, 255);
    if s.active && s.lo != s.hi {
      whole, s := false, Slot32(false, false, 0, 0);
    }
  }

  method EncodeNet(a: Addr.Addr) returns (whole: bool, s: NetSlot)
    ensures forall x: Bytes16 :: a.Has(Val(FromNet(x))) ==> s.Accepts(x)
    ensures whole && Clean128(a) ==> forall x: Bytes16 :: s.Accepts(x) ==> a.Has(Val(FromNet(x)))
    ensures whole <==> Claimed(a)
  {
    var ip, mask, active, invert;
    ghost var bits;
    whole, ip, mask, active, invert, bits := EncodeAddr(a);
    s := NetSlot(active, invert, ToNet(ip), ToNet(mask));
    WholeIsClaimed(a, bits, whole, ip, mask, active, invert);
    hide Claimed, AddrEncoding, Addr.Addr.Has, NetMatch, ToNet, FromNet, Clean128, MaskedEq;
    forall x: Bytes16
      ensures a.Has(Val(FromNet(x))) ==> s.Accepts(x)
      ensures whole && Clean128(a) && s.Accepts(x) ==> a.Has(Val(FromNet(x)))
    {
      NetMatchIsMasked(x, ip, mask);
      ValBounds(FromNet(x));
      if a.Has(Val(FromNet(x))) {
        Sound128(a, bits, whole, ip, mask, active, invert, Val(FromNet(x)));
      }
      if whole && Clean128(a) && InMasked(active, invert, ip, mask, Val(FromNet(x))) {
        Exact128(a, bits, whole, ip, mask, active, invert, Val(FromNet(x)));
      }
    }
  }

  /** The attributes of an event, addresses as host words. */
  predicate Describes(e: Event, a: Attrs) {
    && a.event == e.event <= 15 && a.proto == e.protocol && a.pid == e.pid
    && a.sport == e.localPort && a.dport == e.remotePort
    && a.src == FromNet(e.local) && a.dst == FromNet(e.remote)
  }

  method EventMask(r: Range.Range) returns (events: Option<set<nat>>)
    requires r.Valid(15)
    ensures forall v :: 0 <= v <= 15 ==> (r.Has(v) <==> (events.Some? ==> v in events.value))
  {
    if r.IsFull(15) {
      return None;
    }
    var mask: set<nat> := {};
    for i := 0 to 16
      invariant forall v: nat :: v in mask <==> v < i && r.Has(v)
    {
      if r.Has(i) {
        mask := mask + {i};
      }
    }
    events := Some(mask);
  }

  /** The cubes whose event rule claims to be complete. */
  predicate WholeEvent(c: Cube) {
    && FitsValue(c.proto) && FitsRange(c.sport, 65535) && FitsRange(c.dport, 65535) && FitsRange(c.pid, 0xFFFF_FFFF)
    && Claimed(c.src) && Claimed(c.dst)
  }

  /** Builds an event rule; the result tells whether it is the cube exactly. */
  method EmitEventRule(c: Cube) returns (exact: bool, r: EventRule)
    requires Shaped(true, c)
    ensures r.enabled && (exact <==> c.exact && WholeEvent(c))
    ensures forall e: Event, a: Attrs :: Describes(e, a) && c.In(a) ==> RuleMatches(r, e)
    ensures exact && Clean128(c.src) && Clean128(c.dst) ==>
              forall e: Event, a: Attrs :: Describes(e, a) && RuleMatches(r, e) ==> c.In(a)
  {
    hide Claimed, FitsRange, FitsValue;
    assert c.Get(EventKind).Valid(15) && c.Get(Proto).Valid(255) && c.Get(Pid).Valid(0xFFFF_FFFF);
    assert c.Get(Sport).Valid(65535) && c.Get(Dport).Valid(65535);
    var events := EventMask(c.event);
    var okP, proto := EncodeProto(c.proto);
    var okL, lport := EncodeRange32(c.sport, 65535);
    var okR, rport := EncodeRange32(c.dport, 65535);
    var okI, pid := EncodeRange32(c.pid, 0xFFFF_FFFF);
    var okS, laddr := EncodeNet(c.src);
    var okD, raddr := EncodeNet(c.dst);
    r := EventRule(true, events, proto, lport, rport, pid, laddr, raddr);
    exact := c.exact && okP && okL && okR && okI && okS && okD;
    forall e: Event, a: Attrs | Describes(e, a)
      ensures c.In(a) ==> RuleMatches(r, e)
      ensures exact && Clean128(c.src) && Clean128(c.dst) && RuleMatches(r, e) ==> c.In(a)
    {
      EventParts(c, a);
    }
    hide Cube.In, RuleMatches, Describes, Clean128;
  }

  lemma EventParts(c: Cube, a: Attrs)
    requires Shaped(true, c)
    ensures c.In(a) <==> c.proto.Has(a.proto) && c.sport.Has(a.sport) && c.dport.Has(a.dport) && c.event.Has(a.event)
                         && c.pid.Has(a.pid) && c.src.Has(Val(a.src)) && c.dst.Has(Val(a.dst))
  {
    assert a.tcpFlags * {} == {};
  }

  /** What the evaluator sees of an event. */
  predicate SeenAs(e: Event, v: View) {
    && v.EventView? && v.event == e.event <= 15 && v.protocol == e.protocol && v.pid == e.pid
    && v.localPort == e.localPort && v.remotePort == e.remotePort
    && v.local == FromNet(e.local) && v.remote == FromNet(e.remote)
  }

  function AttrsOf(e: Event): Attrs {
    Attrs(0, FromNet(e.local), FromNet(e.remote), e.localPort, e.remotePort, e.protocol, 0, {}, 0, 0, e.event, e.pid)
  }

  predicate AnyMatches(rules: seq<EventRule>, e: Event) {
    exists i :: 0 <= i < |rules| && RuleMatches(rules[i], e)
  }

  /** The rules block every accepted event. */
  ghost predicate BlocksAll(obj: seq<Insn>, rules: seq<EventRule>)
    requires 0 < |obj| && Forward(obj)
  {
    forall e: Event, v: View :: SeenAs(e, v) && Accepts(obj, Jump(0), v) ==> AnyMatches(rules, e)
  }

  /** The rules block only accepted events. */
  ghost predicate BlocksOnly(obj: seq<Insn>, rules: seq<EventRule>)
    requires 0 < |obj| && Forward(obj)
  {
    forall e: Event, v: View :: SeenAs(e, v) && AnyMatches(rules, e) ==> Accepts(obj, Jump(0), v)
  }

  /** What claims to be complete is clean. */
  predicate CleanCubes(cubes: seq<Cube>) {
    forall k :: 0 <= k < |cubes| ==> HonestEvent(cubes[k])
  }

  predicate HonestEvent(c: Cube) {
    c.exact && WholeEvent(c) ==> Clean128(c.src) && Clean128(c.dst)
  }

  predicate AllWhole(cubes: seq<Cube>) {
    forall k :: 0 <= k < |cubes| ==> cubes[k].exact && WholeEvent(cubes[k])
  }

  /** Encodes the cubes one by one. */
  method EmitEventRules(cubes: seq<Cube>) returns (exact: bool, rules: seq<EventRule>)
    requires forall k :: 0 <= k < |cubes| ==> Shaped(true, cubes[k])
    ensures |rules| == |cubes| && forall k :: 0 <= k < |rules| ==> rules[k].enabled
    ensures exact <==> AllWhole(cubes)
    ensures forall k, e: Event, a: Attrs :: 0 <= k < |cubes| && Describes(e, a) && cubes[k].In(a) ==>
              RuleMatches(rules[k], e)
    ensures exact && CleanCubes(cubes) ==>
              forall k, e: Event, a: Attrs :: 0 <= k < |cubes| && Describes(e, a) && RuleMatches(rules[k], e) ==>
                cubes[k].In(a)
  {
    hide Cube.In, RuleMatches, Describes, Clean128, Shaped, WholeEvent;
    exact, rules := true, [];
    for i := 0 to |cubes|
      invariant |rules| == i && forall k :: 0 <= k < i ==> rules[k].enabled
      invariant exact <==> forall k :: 0 <= k < i ==> cubes[k].exact && WholeEvent(cubes[k])
      invariant forall k, e: Event, a: Attrs :: 0 <= k < i && Describes(e, a) && cubes[k].In(a) ==>
                  RuleMatches(rules[k], e)
      invariant exact && CleanCubes(cubes) ==>
                  forall k, e: Event, a: Attrs :: 0 <= k < i && Describes(e, a) && RuleMatches(rules[k], e) ==>
                    cubes[k].In(a)
    {
      assert CleanCubes(cubes) ==> HonestEvent(cubes[i]);
      var ok, r := EmitEventRule(cubes[i]);
      rules := rules + [r];
      exact := exact && ok;
    }
  }

  /** Lowers an event filter.  If the result is exact and the cubes are clean, in particular if
      no address literal touches the lower end of `::ffff:0:0/96` or none touches its upper end,
      the rules are the filter.  Too many paths or rules leave nothing. */
  method LowerEvents(obj: seq<Insn>) returns (rules: seq<EventRule>, exact: bool)
    requires 0 < |obj|
    ensures |rules| <= EVENT_RULES_MAX && forall k :: 0 <= k < |rules| ==> rules[k].enabled
    ensures Lowerable(true, obj) ==>
              && (exact || rules != [] ==> BlocksAll(obj, rules))
              && (exact && (CleanCubes(CubesOf(true, obj)) || LiteralsOffBlock(obj)) ==> BlocksOnly(obj, rules))
    ensures Forward(obj) ==>
              if WithinBudget(true, obj) && |CubesOf(true, obj)| <= EVENT_RULES_MAX
              then |rules| == |CubesOf(true, obj)| && (exact <==> AllWhole(CubesOf(true, obj)))
              else rules == [] && !exact
  {
    hide Cube.In, Captured, Faithful, Accepts, Walked, RuleMatches, Clean128, Describes, CleanCubes, CubesFrom, Visits;
    hide Lowerable, WholeEvent;
    var ctx := new Context(obj, true);
    EventRoot(obj);
    ctx.Walk(0, Init());
    ghost var cubes := ctx.cubes;
    assert Fresh(ctx.cubes, 0) == cubes;
    assert Forward(obj) && !ctx.overflow ==> cubes == [] + CubesOf(true, obj) == CubesOf(true, obj);
    EventWalked(obj, cubes);
    PlainHere(true, obj, 0);
    if ctx.overflow || |ctx.cubes| > EVENT_RULES_MAX {
      return [], false;
    }
    exact, rules := EmitEventRules(ctx.cubes);
    if Lowerable(true, obj) {
      FromEventCubes(obj, cubes, rules, exact);
    }
  }

  lemma EventRoot(obj: seq<Insn>)
    ensures Walked(true, obj, Init())
  {
    ValOfConstants();
  }

  lemma EventWalked(obj: seq<Insn>, cubes: seq<Cube>)
    requires forall k :: 0 <= k < |cubes| ==> Walked(true, obj, cubes[k])
    ensures forall k :: 0 <= k < |cubes| ==> Shaped(true, cubes[k])
    ensures LiteralsOffBlock(obj) ==> CleanCubes(cubes)
  {
    hide WholeEvent, Cube.Valid;
  }

  lemma EventAgrees(obj: seq<Insn>, e: Event, v: View)
    requires SeenAs(e, v)
    ensures AgreesWith(true, obj, Subject(v, AttrsOf(e))) && Describes(e, AttrsOf(e)) && Init().In(AttrsOf(e))
  {
    hide FromNet;
    InitHasEverything(AttrsOf(e));
  }

  lemma FromEventCubes(obj: seq<Insn>, cubes: seq<Cube>, rules: seq<EventRule>, exact: bool)
    requires 0 < |obj| && Forward(obj) && |rules| == |cubes|
    requires Captured(true, obj, Jump(0), Init(), cubes) && Faithful(true, obj, Jump(0), Init(), cubes)
    requires exact ==> forall k :: 0 <= k < |cubes| ==> cubes[k].exact
    requires forall k, e: Event, a: Attrs :: 0 <= k < |cubes| && Describes(e, a) && cubes[k].In(a) ==>
               RuleMatches(rules[k], e)
    requires exact && CleanCubes(cubes) ==>
               forall k, e: Event, a: Attrs :: 0 <= k < |cubes| && Describes(e, a) && RuleMatches(rules[k], e) ==>
                 cubes[k].In(a)
    ensures BlocksAll(obj, rules)
    ensures exact && CleanCubes(cubes) ==> BlocksOnly(obj, rules)
  {
    hide Cube.In, Accepts, RuleMatches, Describes, AttrsOf, SeenAs, AgreesWith, CleanCubes;
    forall e: Event, v: View | SeenAs(e, v) && Accepts(obj, Jump(0), v) ensures AnyMatches(rules, e) {
      EventAgrees(obj, e, v);
      assert Somewhere(cubes, Subject(v, AttrsOf(e)));
      var k :| 0 <= k < |cubes| && cubes[k].In(AttrsOf(e));
      assert RuleMatches(rules[k], e);
    }
    if exact && CleanCubes(cubes) {
      forall e: Event, v: View | SeenAs(e, v) && AnyMatches(rules, e) ensures Accepts(obj, Jump(0), v) {
        EventAgrees(obj, e, v);
        var k :| 0 <= k < |rules| && RuleMatches(rules[k], e);
        assert cubes[k].In(Subject(v, AttrsOf(e)).attrs);
      }
    }
  }

  /** The kernel's decision on an event: the first matching rule of the map blocks it. */
  method ShouldBlock(block: bool, rules: seq<EventRule>, e: Event) returns (blocked: bool)
    requires |rules| <= EVENT_RULES_MAX && forall k :: 0 <= k < |rules| ==> rules[k].enabled
    ensures blocked <==> block && AnyMatches(rules, e)
  {
    hide RuleMatches;
    if !block {
      return false;
    }
    var i := 0;
    while i < EVENT_RULES_MAX
      invariant 0 <= i <= |rules|
      invariant forall k :: 0 <= k < i ==> !RuleMatches(rules[k], e)
    {
      if i >= |rules| || !rules[i].enabled {
        return false;
      }
      if RuleMatches(rules[i], e) {
        return true;
      }
      i := i + 1;
    }
    return false;
  }

  const SOCKET_LISTEN := 5
  const SOCKET_ACCEPT := 6

  /** From filter to verdict.  A filter that can accept LISTEN or ACCEPT, which cannot be refused,
      is not installed, nor is one whose rules are not exact; with the rules installed, an event
      is refused if and only if the filter accepts it. */
  method BlockByFilter(obj: seq<Insn>, e: Event, ghost v: View) returns (installed: bool, blocked: bool)
    requires 0 < |obj| <= MAXLEN && Forward(obj) && SeenAs(e, v)
    ensures installed && Lowerable(true, obj) && (CleanCubes(CubesOf(true, obj)) || LiteralsOffBlock(obj)) ==>
              (blocked <==> Accepts(obj, Jump(0), v))
    ensures installed && (e.event == SOCKET_LISTEN || e.event == SOCKET_ACCEPT) ==> !Accepts(obj, Jump(0), v)
    ensures blocked ==> installed
    ensures installed <==>
            && !CanBeEvent(obj, SOCKET_LISTEN) && !CanBeEvent(obj, SOCKET_ACCEPT)
            && WithinBudget(true, obj) && |CubesOf(true, obj)| <= EVENT_RULES_MAX && AllWhole(CubesOf(true, obj))
  {
    hide CanBeEvent, AllWhole, WithinBudget, RuleMatches, Accepts, CleanCubes, CubesFrom, Lowerable, LiteralsOffBlock;
    hide BlocksAll, BlocksOnly;
    var flags := AnalyzeFilter(Socket, obj);
    if SOCKET_LISTEN in flags.events || SOCKET_ACCEPT in flags.events {
      return false, false;
    }
    var rules, exact := LowerEvents(obj);
    if !exact {
      return false, false;
    }
    installed := true;
    blocked := ShouldBlock(true, rules, e);
    Blocked(obj, rules, e, v);
  }

  lemma Blocked(obj: seq<Insn>, rules: seq<EventRule>, e: Event, v: View)
    requires 0 < |obj| && Forward(obj) && SeenAs(e, v)
    ensures BlocksAll(obj, rules) && Accepts(obj, Jump(0), v) ==> AnyMatches(rules, e)
    ensures BlocksOnly(obj, rules) && AnyMatches(rules, e) ==> Accepts(obj, Jump(0), v)
  {
    hide RuleMatches, SeenAs, Accepts;
  }
}
