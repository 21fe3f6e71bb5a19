/** The steps that narrow a cube: version, protocol, numbers, addresses, booleans. */
module Constrain {
  import opened Words
  import opened Fields
  import opened Filter
  import opened Cube
  import Range
  import Addr

  /** At most one cube. */
  function If(ok: bool, c: Cube): seq<Cube> {
    if ok then [c] else []
  }

  /** What each step computes: no cube when the constraint contradicts the cube. */
  function Versioned(c: Cube, ver: nat): seq<Cube> {
    If(c.ver == 0 || c.ver == ver, c.(ver := ver))
  }

  function Numbered(c: Cube, key: Key, test: Test, arg: u32): seq<Cube> {
    var r := c.Get(key);
    match Range.Narrow(r, test, arg, key.Max())
    case None => []
    case Some(n) => [c.Set(key, n).(exact := c.exact && !Range.Crowded(r, test, arg, key.Max()))]
  }

  function Addressed(c: Cube, side: Side, test: Test, arg: Words): seq<Cube> {
    var a := c.Addr(side);
    match Addr.Narrow(a, test, arg)
    case None => []
    case Some(n) => [c.SetAddr(side, n).(exact := c.exact && !Addr.Crowded(a, test, arg))]
  }

  function VersionedProto(c: Cube, ver: nat, proto: u8): seq<Cube> {
    var s := Versioned(c, ver);
    if s == [] then [] else Numbered(s[0], Proto, EQ, proto)
  }

  function Required(c: Cube, f: Field): seq<Cube> {
    match HeaderOf(f)
    case NoHeader => [c]
    case IpHeader => Versioned(c, 4)
    case Ipv6Header => Versioned(c, 6)
    case IcmpHeader => VersionedProto(c, 4, IPPROTO_ICMP)
    case Icmpv6Header => VersionedProto(c, 6, IPPROTO_ICMPV6)
    case TcpHeader => Numbered(c, Proto, EQ, IPPROTO_TCP)
    case UdpHeader => Numbered(c, Proto, EQ, IPPROTO_UDP)
  }

  function Slotted(slot: int, test: Test, arg: Words, neg: bool): Option<int> {
    var can0, can1 := Meets(Bool(false), test, neg, arg), Meets(Bool(true), test, neg, arg);
    if can0 && can1 then Some(slot)
    else if (can1 && slot != 0) || (can0 && slot != 1) then Some(if can1 then 1 else 0)
    else None
  }

  /** The cube with a number narrowed holds the inputs that pass the test, or all if the test was dropped. */
  lemma NumberedIn(c: Cube, key: Key, test: Test, arg: u32, d: Cube, a: Attrs)
    requires d in Numbered(c, key, test, arg) && a.Number(key) <= key.Max()
    ensures d.In(a) <==>
            c.In(a) && (Range.Crowded(c.Get(key), test, arg, key.Max()) || Holds(test, a.Number(key), arg))
    ensures d == c.Set(key, d.Get(key)).(exact := d.exact)
  {
    hide Cube.In, Range.Narrow, Range.Crowded;
    Range.NarrowHas(c.Get(key), test, arg, key.Max(), a.Number(key));
    SetNumber(c, key, d.Get(key), d.exact, a);
  }

  lemma AddressedIn(c: Cube, side: Side, test: Test, arg: Words, d: Cube, a: Attrs)
    requires d in Addressed(c, side, test, arg)
    ensures d.In(a) <==>
            c.In(a) && (Addr.Crowded(c.Addr(side), test, arg) || Holds(test, Val(a.Address(side)), Val(arg)))
    ensures d == c.SetAddr(side, d.Addr(side)).(exact := d.exact)
  {
    hide Cube.In, Addr.Narrow, Addr.Crowded;
    Addr.NarrowHas(c.Addr(side), test, arg, Val(a.Address(side)));
    NarrowAddress(c, side, d.Addr(side), d.exact, a);
  }

  lemma VersionedIn(c: Cube, ver: nat, d: Cube, a: Attrs)
    requires d in Versioned(c, ver)
    ensures d == c.(ver := ver) && (c.ver == 0 || c.ver == ver)
    ensures d.In(a) <==> c.In(a) && (ver == 0 || a.ver == ver)
  {
  }

  /** Requiring a header keeps the inputs that have it, and touches only version and protocol. */
  lemma RequiredIn(c: Cube, f: Field, d: Cube, a: Attrs)
    requires d in Required(c, f)
    ensures d.In(a) <==> c.In(a) && a.HasHeader(HeaderOf(f))
    ensures d == c.(ver := d.ver, proto := d.proto) && (d.ver == c.ver || (c.ver == 0 && (d.ver == 4 || d.ver == 6)))
    ensures HeaderOf(f) == NoHeader ==> d == c
    ensures HeaderOf(f) == IpHeader ==> d.ver == 4 && d.proto == c.proto
    ensures HeaderOf(f) == Ipv6Header ==> d.ver == 6 && d.proto == c.proto
  {
    hide Cube.In, Numbered;
    var h := HeaderOf(f);
    if h == IpHeader || h == Ipv6Header {
      VersionedIn(c, if h == IpHeader then 4 else 6, d, a);
    } else if h == TcpHeader || h == UdpHeader {
      ProtoIn(c, if h == TcpHeader then IPPROTO_TCP else IPPROTO_UDP, d, a);
    } else if h != NoHeader {
      var ver := if h == IcmpHeader then 4 else 6;
      var s := Versioned(c, ver);
      VersionedIn(c, ver, s[0], a);
      ProtoIn(s[0], if h == IcmpHeader then IPPROTO_ICMP else IPPROTO_ICMPV6, d, a);
    }
  }

  lemma ProtoIn(c: Cube, proto: u8, d: Cube, a: Attrs)
    requires d in Numbered(c, Proto, EQ, proto)
    ensures d.In(a) <==> c.In(a) && a.proto == proto
    ensures d == c.(proto := d.proto)
  {
    hide Cube.In, Range.Narrow;
    NumberedIn(c, Proto, EQ, proto, d, a);
  }

  method SetVer(c: Cube, ver: nat) returns (ok: bool, c': Cube)
    requires c.Valid() && (ver == 4 || ver == 6)
    ensures c'.Valid() && c'.exact == c.exact && SameEventPart(c, c') && (ok ==> AddrKept(c, c'))
    ensures forall a: Attrs :: c.In(a) && a.ver == ver ==> ok && c'.In(a)
    ensures ok ==> forall a: Attrs :: c'.In(a) ==> c.In(a) && a.ver == ver
    ensures ok <==> c.ver == 0 || c.ver == ver
    ensures c.Room() ==> c'.Room()
    ensures ok ==> c' == c.(ver := ver)
    ensures If(ok, c') == Versioned(c, ver)
  {
    if c.ver != 0 && c.ver != ver {
      return false, c;
    }
    return true, c.(ver := ver);
  }

  /** Constrains one number of the cube by `value test arg`. */
  method Number(c: Cube, key: Key, test: Test, arg: u32) returns (ok: bool, c': Cube)
    requires c.Valid()
    ensures (ok ==> c'.Valid()) && c'.exact == (c.exact && !Range.Crowded(c.Get(key), test, arg, key.Max()))
    ensures test != NEQ ==> |c'.Get(key).excl| <= |c.Get(key).excl|
    ensures forall a: Attrs :: a.Number(key) <= key.Max() && c.In(a) && Holds(test, a.Number(key), arg) ==>
              ok && c'.In(a)
    ensures ok ==> forall a: Attrs :: c'.In(a) ==> c.In(a)
    ensures ok && (c'.exact || test != NEQ) ==>
              forall a: Attrs :: a.Number(key) <= key.Max() && c'.In(a) ==> Holds(test, a.Number(key), arg)
    ensures c' == c.Set(key, c'.Get(key)).(exact := c'.exact)
    ensures If(ok, c') == Numbered(c, key, test, arg)
    ensures Range.Crowded(c.Get(key), test, arg, key.Max()) ==> ok && c'.Get(key) == c.Get(key)
  {
    hide Cube.In, Range.Range.Has, Range.Range.Valid, Attrs.Number, Range.Narrow;
    assert c.Get(key).Valid(key.Max());
    var r, exact;
    ok, r, exact := Range.Apply(c.Get(key), test, arg, key.Max(), c.exact);
    c' := c.Set(key, r).(exact := exact);
    NumberSet(c, key, r, exact);
  }

  /** The cube with one number narrowed. */
  lemma NumberSet(c: Cube, key: Key, r: Range.Range, exact: bool)
    requires c.Valid()
    ensures var c' := c.Set(key, r).(exact := exact);
            && (forall a: Attrs :: c.In(a) ==> c.Get(key).Has(a.Number(key)))
            && (forall a: Attrs :: c'.In(a) ==> r.Has(a.Number(key)))
            && (forall a: Attrs :: c.Get(key).Has(a.Number(key)) && r.Has(a.Number(key)) ==> (c.In(a) <==> c'.In(a)))
            && (r.Valid(key.Max()) ==> c'.Valid())
  {
    var c' := c.Set(key, r).(exact := exact);
    forall a: Attrs {
      SetNumber(c, key, r, exact, a);
    }
    forall k: Key ensures r.Valid(key.Max()) ==> c'.Get(k).Valid(k.Max()) {
      assert c.Get(k).Valid(k.Max());
    }
  }

  lemma SetNumber(c: Cube, key: Key, r: Range.Range, exact: bool, a: Attrs)
    ensures var c' := c.Set(key, r).(exact := exact);
            && (c'.In(a) ==> r.Has(a.Number(key)))
            && (c.In(a) ==> c.Get(key).Has(a.Number(key)))
            && (c.Get(key).Has(a.Number(key)) && r.Has(a.Number(key)) ==> (c.In(a) <==> c'.In(a)))
  {
  }

  /** Constrains one address of the cube by `address test arg`. */
  method Address(c: Cube, side: Side, test: Test, arg: Words) returns (ok: bool, c': Cube)
    requires c.Valid()
    ensures c'.Valid() && c'.exact == (c.exact && !Addr.Crowded(c.Addr(side), test, arg))
    ensures forall a: Attrs :: c.In(a) && Holds(test, Val(a.Address(side)), Val(arg)) ==> ok && c'.In(a)
    ensures ok && c'.exact ==> forall a: Attrs :: c'.In(a) ==> c.In(a) && Holds(test, Val(a.Address(side)), Val(arg))
    ensures c' == c.SetAddr(side, c'.Addr(side)).(exact := c'.exact)
    ensures If(ok, c') == Addressed(c, side, test, arg)
    ensures ok ==> Addr.NarrowedBy(c.Addr(side), c'.Addr(side), test, arg)
    ensures Addr.Crowded(c.Addr(side), test, arg) ==> ok && c'.Addr(side) == c.Addr(side)
  {
    hide Cube.In, Addr.Addr.Has, Attrs.Address, Addr.Narrow, Addr.NarrowedBy, Val;
    var r, exact;
    ok, r, exact := Addr.Apply(c.Addr(side), test, arg, c.exact);
    c' := c.SetAddr(side, r).(exact := exact);
    AddressSet(c, side, r, exact);
    SameNumbers(c, c');
  }

  /** The cube with one address narrowed. */
  lemma AddressSet(c: Cube, side: Side, r: Addr.Addr, exact: bool)
    ensures var c' := c.SetAddr(side, r).(exact := exact);
            && (forall a: Attrs :: c.In(a) ==> c.Addr(side).Has(Val(a.Address(side))))
            && (forall a: Attrs :: c'.In(a) ==> r.Has(Val(a.Address(side))))
            && (forall a: Attrs :: c.Addr(side).Has(Val(a.Address(side))) && r.Has(Val(a.Address(side))) ==>
                  (c.In(a) <==> c'.In(a)))
  {
    forall a: Attrs {
      NarrowAddress(c, side, r, exact, a);
    }
  }

  lemma NarrowAddress(c: Cube, side: Side, r: Addr.Addr, exact: bool, a: Attrs)
    ensures var c' := c.SetAddr(side, r).(exact := exact);
            && (c'.In(a) ==> r.Has(Val(a.Address(side))))
            && (c.In(a) ==> c.Addr(side).Has(Val(a.Address(side))))
            && (c.Addr(side).Has(Val(a.Address(side))) && r.Has(Val(a.Address(side))) ==> (c.In(a) <==> c'.In(a)))
  {
  }

  lemma SameNumbers(c: Cube, c': Cube)
    requires c.Valid()
    requires c'.proto == c.proto && c'.ttl == c.ttl && c'.sport == c.sport && c'.dport == c.dport
    requires c'.event == c.event && c'.pid == c.pid
    ensures forall key: Key :: c'.Get(key).Valid(key.Max())
  {
    forall key: Key ensures c'.Get(key).Valid(key.Max()) {
      assert c.Get(key).Valid(key.Max());
    }
  }

  /** Is `b` what the slot allows?  A negative slot allows both values. */
  predicate Fits(slot: int, b: bool) {
    slot < 0 || slot == (if b then 1 else 0)
  }

  /** Constrains a 0/1 value, known or not, by `value test literal`. */
  method ApplyBool(slot: int, test: Test, arg: Words, neg: bool) returns (ok: bool, slot': int)
    requires slot == -1 || slot == 0 || slot == 1
    ensures slot' == -1 || slot' == 0 || slot' == 1
    ensures forall b :: Fits(slot, b) && Meets(Bool(b), test, neg, arg) ==> ok && Fits(slot', b)
    ensures ok ==> forall b :: Fits(slot', b) ==> Fits(slot, b) && Meets(Bool(b), test, neg, arg)
    ensures slot >= 0 && ok ==> slot' == slot
    ensures Slotted(slot, test, arg, neg) == if ok then Some(slot') else None
  {
    var cmp0 := if neg then 1 else if 0 < arg[0] then -1 else 0;
    var cmp1 := if neg then 1 else if 1 < arg[0] then -1 else if 1 == arg[0] then 0 else 1;
    var can0, can1 := Decide(test, cmp0), Decide(test, cmp1);
    assert can0 == Meets(Bool(false), test, neg, arg) && can1 == Meets(Bool(true), test, neg, arg);
    if !can0 && !can1 {
      return false, slot;
    }
    if can0 && can1 {
      return true, slot;
    }
    var want := if can1 then 1 else 0;
    if slot >= 0 && slot != want {
      return false, slot;
    }
    return true, want;
  }

  /** The truth of `0 test literal`; the source calls a negative zero equal to zero. */
  predicate ZeroTest(test: Test, arg: u32, neg: bool) {
    Decide(test, if arg == 0 then 0 else if neg then 1 else -1)
  }

  lemma ZeroTestIsMeets(test: Test, arg: Words, neg: bool)
    ensures (ZeroTest(test, arg[0], neg) <==> Meets(Small(0), test, neg, arg))
            <==> !(neg && arg[0] == 0 && (test == EQ || test == NEQ || test == LEQ || test == GT))
  {
  }

  /** Imposes the header a successful test on `f` implies. */
  method RequireHeader(c: Cube, f: Field) returns (ok: bool, c': Cube)
    requires c.Valid()
    ensures (ok ==> c'.Valid()) && c'.exact == c.exact && SameEventPart(c, c') && (ok ==> AddrKept(c, c'))
    ensures forall a: Attrs :: c.In(a) && a.HasHeader(HeaderOf(f)) ==> ok && c'.In(a)
    ensures ok ==> forall a: Attrs :: c'.In(a) ==> c.In(a) && a.HasHeader(HeaderOf(f))
    ensures ok && c.Room() ==> c'.Room()
    ensures HeaderOf(f) == NoHeader ==> ok && c' == c
    ensures HeaderOf(f) == IpHeader && ok ==> c'.ver == 4
    ensures HeaderOf(f) == Ipv6Header && ok ==> c'.ver == 6
    ensures If(ok, c') == Required(c, f)
  {
    hide Cube.Room;
    ok, c' := true, c;
    match HeaderOf(f) {
      case NoHeader =>
      case IpHeader =>
        ok, c' := SetVer(c, 4);
      case Ipv6Header =>
        ok, c' := SetVer(c, 6);
      case IcmpHeader =>
        ok, c' := SetVerProto(c, 4, IPPROTO_ICMP);
      case Icmpv6Header =>
        ok, c' := SetVerProto(c, 6, IPPROTO_ICMPV6);
      case TcpHeader =>
        ok, c' := SetProto(c, IPPROTO_TCP);
      case UdpHeader =>
        ok, c' := SetProto(c, IPPROTO_UDP);
    }
  }

  method SetVerProto(c: Cube, ver: nat, proto: u8) returns (ok: bool, c': Cube)
    requires c.Valid() && (ver == 4 || ver == 6)
    ensures (ok ==> c'.Valid()) && c'.exact == c.exact && SameEventPart(c, c')
    ensures ok ==> AddrKept(c, c') && c'.ver == ver && (c.Room() ==> c'.Room())
    ensures forall a: Attrs :: c.In(a) && a.ver == ver && a.proto == proto ==> ok && c'.In(a)
    ensures ok ==> forall a: Attrs :: c'.In(a) ==> c.In(a) && a.ver == ver && a.proto == proto
    ensures If(ok, c') == VersionedProto(c, ver, proto)
  {
    hide Cube.Room;
    ok, c' := SetVer(c, ver);
    if ok {
      ok, c' := SetProto(c', proto);
    }
  }

  method SetProto(c: Cube, proto: u8) returns (ok: bool, c': Cube)
    requires c.Valid()
    ensures (ok ==> c'.Valid()) && c'.exact == c.exact && SameEventPart(c, c') && c'.ver == c.ver
    ensures ok ==> AddrKept(c, c') && (c.Room() ==> c'.Room())
    ensures forall a: Attrs :: c.In(a) && a.proto == proto ==> ok && c'.In(a)
    ensures ok ==> forall a: Attrs :: c'.In(a) ==> c.In(a) && a.proto == proto
    ensures If(ok, c') == Numbered(c, Proto, EQ, proto)
  {
    ok, c' := Number(c, Proto, EQ, proto);
    assert forall key: Key :: c.Room() ==> |c.Get(key).excl| < Range.MAX_EXCL;
  }

  /** The fields whose missing header the lowering can express. */
  predicate HasAbsentForm(f: Field) {
    || f == IP_TTL || f == IP_PROTOCOL || f == IP_SRCADDR || f == IP_DSTADDR
    || f == IPV6_HOPLIMIT || f == IPV6_SRCADDR || f == IPV6_DSTADDR
    || IsSourceValue(f) || IsDestValue(f) || IsTcpFlag(f)
  }

  /** Does the cube already guarantee the header behind `f`? */
  predicate CubeHasHeader(c: Cube, f: Field) {
    HasAbsentForm(f) &&
    match HeaderOf(f)
    case NoHeader => false
    case IpHeader => c.ver == 4
    case Ipv6Header => c.ver == 6
    case TcpHeader => c.ProtoIs(IPPROTO_TCP)
    case UdpHeader => c.ProtoIs(IPPROTO_UDP)
    case IcmpHeader => c.ver == 4 && c.ProtoIs(IPPROTO_ICMP)
    case Icmpv6Header => c.ver == 6 && c.ProtoIs(IPPROTO_ICMPV6)
  }

  lemma CubeHasHeaderIsSound(c: Cube, f: Field, a: Attrs)
    requires CubeHasHeader(c, f) && c.In(a)
    ensures a.HasHeader(HeaderOf(f))
  {
  }
}
