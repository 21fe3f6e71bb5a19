/** Filters whose address literals belong to the other family: what their lowering does to packets. */
module Foreign {
  import opened Words
  import opened Fields
  import opened Filter
  import opened Cube
  import opened Split
  import opened Walk
  import opened Bits
  import opened Prefix
  import opened Encode
  import opened EncodeAddress
  import opened Lower
  import opened Rules
  import L = Lower
  import Addr

  /** `f` as a test of its own, the other way to REJECT. */
  function Present(f: Field, next: nat): Insn {
    Insn(f, NEQ, false, ZEROES, Jump(next), Reject)
  }

  /** `ip and outbound and localAddr != 2001:db8::5` */
  const HOLE: seq<Insn> := [Present(IP, 1), Present(OUTBOUND, 2), Insn(LOCALADDR, NEQ, false, DB8_5, Accept, Reject)]

  /** `ip and outbound and localAddr == 2001:db8::1` */
  const PREFIX: seq<Insn> := [Present(IP, 1), Present(OUTBOUND, 2), Insn(LOCALADDR, EQ, false, DB8_1, Accept, Reject)]

  /** `ipv6 and outbound and localAddr != 2001:db8::5` */
  const HOLE6: seq<Insn> := [Present(IPV6, 1), Present(OUTBOUND, 2), Insn(LOCALADDR, NEQ, false, DB8_5, Accept, Reject)]

  /** `ipv6.SrcAddr >= ::ffff:0:0 and ipv6.SrcAddr <= ::ffff:ffff:ffff and ipv6.SrcAddr != ::ffff:0:5` */
  const BLOCK: seq<Insn> := [
    Insn(IPV6_SRCADDR, GEQ, false, MAPPED_LO, Jump(1), Reject),
    Insn(IPV6_SRCADDR, LEQ, false, MAPPED_HI, Jump(2), Reject),
    Insn(IPV6_SRCADDR, NEQ, false, MappedWords(5), Accept, Reject)]

  lemma NothingFromReject(obj: seq<Insn>, out: seq<Cube>)
    requires Forward(obj)
    ensures CubesFromAll(false, obj, Reject, out) == [] && VisitsAll(false, obj, Reject, out) == 0
  {
    if out != [] {
      NothingFromReject(obj, out[..|out| - 1]);
    }
  }

  lemma JustOne(obj: seq<Insn>, l: Label, d: Cube)
    requires Forward(obj) && InObject(l, |obj|)
    ensures CubesFromAll(false, obj, l, [d]) == CubesFrom(false, obj, l, d)
    ensures VisitsAll(false, obj, l, [d]) == Visits(false, obj, l, d)
  {
    hide CubesFrom, Visits;
    assert [d][..0] == [];
    assert CubesFromAll(false, obj, l, []) == [] && VisitsAll(false, obj, l, []) == 0;
  }

  /** A test that leaves one cube when it succeeds and rejects when it fails. */
  lemma Passes(obj: seq<Insn>, i: nat, c: Cube, d: Cube)
    requires Forward(obj) && i < |obj| && obj[i].failure == Reject && SplitCubes(false, obj[i], true, c) == [d]
    ensures CubesFrom(false, obj, Jump(i), c) == CubesFrom(false, obj, obj[i].success, d)
    ensures Visits(false, obj, Jump(i), c) == 1 + Visits(false, obj, obj[i].success, d)
  {
    hide SplitCubes;
    NothingFromReject(obj, SplitCubes(false, obj[i], false, c));
    JustOne(obj, obj[i].success, d);
  }

  /** The cube an `ip` or `ipv6` and `outbound` filter narrows. */
  function Outbound(ver: nat): Cube {
    Init().(ver := ver, dir := 2)
  }

  lemma OutboundFirst(obj: seq<Insn>, f: Field)
    requires Forward(obj) && |obj| == 3 && (f == IP || f == IPV6)
    requires obj[0] == Present(f, 1) && obj[1] == Present(OUTBOUND, 2)
    ensures var c := Outbound(if f == IP then 4 else 6);
            && CubesOf(false, obj) == CubesFrom(false, obj, Jump(2), c)
            && Visits(false, obj, Jump(0), Init()) == 2 + Visits(false, obj, Jump(2), c)
  {
    var ver := if f == IP then 4 else 6;
    FamilyStep(f, Init());
    OutboundStep(Init().(ver := ver));
    hide SplitCubes, Init;
    Passes(obj, 0, Init(), Init().(ver := ver));
    Passes(obj, 1, Init().(ver := ver), Outbound(ver));
  }

  lemma FamilyStep(f: Field, c: Cube)
    requires (f == IP || f == IPV6) && c.ver == 0
    ensures SplitCubes(false, Present(f, 1), true, c) == [c.(ver := if f == IP then 4 else 6)]
  {
  }

  lemma OutboundStep(c: Cube)
    requires c.dir == 0
    ensures SplitCubes(false, Present(OUTBOUND, 2), true, c) == [c.(dir := 2)]
  {
  }

  /** The last test of such a filter. */
  lemma LocalLast(obj: seq<Insn>, ver: nat, a: Addr.Addr)
    requires Forward(obj) && |obj| == 3 && (ver == 4 || ver == 6)
    requires obj[2].field == LOCALADDR && !obj[2].neg && obj[2].success == Accept && obj[2].failure == Reject
    requires Addr.Narrow(Addr.FULL, obj[2].test, obj[2].arg) == Some(a)
    ensures CubesFrom(false, obj, Jump(2), Outbound(ver)) == [Outbound(ver).(src := a)]
    ensures Visits(false, obj, Jump(2), Outbound(ver)) == 1
  {
    hide SplitCubes, Addr.Narrow;
    LocalStep(obj[2], Outbound(ver), a);
    Passes(obj, 2, Outbound(ver), Outbound(ver).(src := a));
  }

  lemma LocalStep(insn: Insn, c: Cube, a: Addr.Addr)
    requires insn.field == LOCALADDR && !insn.neg && c.ver != 0 && c.dir == 2 && c.exact && !c.src.hasExcl
    requires Addr.Narrow(c.src, insn.test, insn.arg) == Some(a)
    ensures SplitCubes(false, insn, true, c) == [c.(src := a)]
  {
    hide Addr.Narrow;
    assert EndpointCubes(insn, c, 1) == [];
    assert EndpointCubes(insn, c, 2) == [c.(src := a)];
  }

  const HOLED := Addr.FULL.(excl := DB8_5, hasExcl := true)
  const SINGLE := Addr.Addr(DB8_1, DB8_1, ZEROES, false)
  const HOLED_BLOCK := Addr.Addr(MAPPED_LO, MAPPED_HI, MappedWords(5), true)

  lemma HoleCubes(obj: seq<Insn>)
    requires obj == HOLE || obj == HOLE6
    ensures Forward(obj) && WithinBudget(false, obj)
    ensures CubesOf(false, obj) == [Outbound(if obj == HOLE then 4 else 6).(src := HOLED)]
  {
    var f := if obj == HOLE then IP else IPV6;
    assert obj[0] == Present(f, 1);
    OutboundFirst(obj, f);
    ValOfConstants();
    hide CubesFrom, Visits;
    LocalLast(obj, if obj == HOLE then 4 else 6, HOLED);
  }

  lemma PrefixCubes()
    ensures WithinBudget(false, PREFIX) && CubesOf(false, PREFIX) == [Outbound(4).(src := SINGLE)]
  {
    OutboundFirst(PREFIX, IP);
    ValOfConstants();
    ValBounds(DB8_1);
    hide CubesFrom, Visits;
    LocalLast(PREFIX, 4, SINGLE);
  }

  function Wide(src: Addr.Addr): Cube {
    Init().(ver := 6, src := src)
  }

  lemma SourceStep(insn: Insn, c: Cube, a: Addr.Addr)
    requires insn.field == IPV6_SRCADDR && !insn.neg && (c.ver == 0 || c.ver == 6) && c.exact && !c.src.hasExcl
    requires Addr.Narrow(c.src, insn.test, insn.arg) == Some(a)
    ensures SplitCubes(false, insn, true, c) == [c.(ver := 6, src := a)]
  {
    hide Addr.Narrow;
  }

  lemma BlockCubes()
    ensures WithinBudget(false, BLOCK) && CubesOf(false, BLOCK) == [Wide(HOLED_BLOCK)]
  {
    var low := Addr.FULL.(lo := MAPPED_LO);
    var both := low.(hi := MAPPED_HI);
    ValOfConstants();
    MappedVal(5);
    SourceStep(BLOCK[0], Init(), low);
    SourceStep(BLOCK[1], Wide(low), both);
    SourceStep(BLOCK[2], Wide(both), both.(excl := MappedWords(5), hasExcl := true));
    HoledBlockIs(both);
    hide SplitCubes, Wide;
    Passes(BLOCK, 0, Init(), Wide(low));
    Passes(BLOCK, 1, Wide(low), Wide(both));
    Passes(BLOCK, 2, Wide(both), Wide(HOLED_BLOCK));
  }

  lemma HoledBlockIs(both: Addr.Addr)
    requires both == Addr.FULL.(lo := MAPPED_LO, hi := MAPPED_HI)
    ensures both.(excl := MappedWords(5), hasExcl := true) == HOLED_BLOCK
  {
  }

  /** An outbound UDP packet as both sides see it. */
  function From4(src: u32, other: Others): Subject {
    Subject(PacketView(true, false, IPPROTO_UDP, V4(64, IPPROTO_UDP, src, 1), Udp(1000, 53), other),
            Attrs(4, MappedWords(src), MappedWords(1), 1000, 53, IPPROTO_UDP, 64, {}, 2, 0, 0, 0))
  }

  function From6(src: Words, other: Others): Subject {
    Subject(PacketView(true, false, IPPROTO_UDP, V6(64, src, DB8_1), Udp(1000, 53), other),
            Attrs(6, src, DB8_1, 1000, 53, IPPROTO_UDP, 64, {}, 2, 0, 0, 0))
  }

  /** Three tests in a row. */
  lemma AcceptsChain(obj: seq<Insn>, v: View)
    requires Forward(obj) && |obj| == 3
    requires obj[0].success == Jump(1) && obj[1].success == Jump(2) && obj[2].success == Accept
    requires forall i :: 0 <= i < 3 ==> obj[i].failure == Reject
    ensures Accepts(obj, Jump(0), v) <==> Truth(obj[0], v) && Truth(obj[1], v) && Truth(obj[2], v)
  {
    hide Truth;
    assert Accepts(obj, Jump(2), v) <==> Truth(obj[2], v);
    assert Accepts(obj, Jump(1), v) <==> Truth(obj[1], v) && Accepts(obj, Jump(2), v);
  }

  lemma SingleRule4(c: Cube, t: Tables, a: Attrs)
    requires c.ver == 4 && Rendered([c], t) && a.Valid() && a.ver == 4
    ensures |t.v4| == 1 && Renders4(c, t.v4[0]) && (TableMatches(t, a) <==> Matches4(t.v4[0], a))
    ensures t.exact <==> c.exact && Whole(c)
  {
    hide Renders4, Renders6, Whole, Matches4, Matches6;
    assert ForVersion([], 4) == [];
    assert [c][..0] == [];
    assert ForVersion([c], 4) == [c];
    assert [c][0] == c;
  }

  lemma SingleRule6(c: Cube, t: Tables, a: Attrs)
    requires c.ver == 6 && Rendered([c], t) && a.Valid() && a.ver == 6
    ensures |t.v6| == 1 && Renders6(c, t.v6[0]) && (TableMatches(t, a) <==> Matches6(t.v6[0], a))
    ensures t.exact <==> c.exact && Whole(c)
  {
    hide Renders4, Renders6, Whole, Matches4, Matches6;
    assert ForVersion([], 6) == [];
    assert [c][..0] == [];
    assert ForVersion([c], 6) == [c];
    assert [c][0] == c;
  }

  lemma FewCubes(c: Cube)
    ensures !TooMany([c])
  {
    assert ForVersion([], 4) == [] && ForVersion([], 6) == [];
    assert [c][..0] == [];
  }

  /** Lowering `ip and outbound and localAddr != 2001:db8::5` loses an accepted packet from 0.0.0.5. */
  method LowerHole() returns (t: Tables)
    ensures forall other: Others ::
              var s := From4(5, other);
              AgreesWith(false, HOLE, s) && Accepted(HOLE, s) && !TableMatches(t, s.attrs)
  {
    hide CubesFrom, Visits, Rendered, TooMany, TableMatches, Accepts, TablesValid, Superset, Subset, Encodable, Clean;
    var result := L.Lower(Network, HOLE);
    t := result.value;
    HoleCubes(HOLE);
    FewCubes(Outbound(4).(src := HOLED));
    forall other: Others
      ensures var s := From4(5, other); AgreesWith(false, HOLE, s) && Accepted(HOLE, s) && !TableMatches(t, s.attrs)
    {
      HoleLoses(t, other);
    }
  }

  lemma HoleLoses(t: Tables, other: Others)
    requires Rendered([Outbound(4).(src := HOLED)], t)
    ensures var s := From4(5, other); AgreesWith(false, HOLE, s) && Accepted(HOLE, s) && !TableMatches(t, s.attrs)
  {
    hide Rendered, TableMatches, Matches4, Encoded, Accepts, AgreesWith, InCommon;
    var s, c := From4(5, other), Outbound(4).(src := HOLED);
    SingleRule4(c, t, s.attrs);
    var x: AddrCode, y: AddrCode :| Encoded(c.src, x) && Encoded(c.dst, y) && Reads4(c, t.v4[0], x, y);
    ForeignHole(x);
    HoleAccepts(other);
    hide AddrCode.Has4, Accepts, AgreesWith;
  }

  lemma HoleAccepts(other: Others)
    ensures AgreesWith(false, HOLE, From4(5, other)) && Accepted(HOLE, From4(5, other)) && From4(5, other).attrs.Valid()
  {
    hide Accepts;
    AcceptsChain(HOLE, From4(5, other).view);
  }

  /** Lowering `ip and outbound and localAddr == 2001:db8::1` captures a packet from 0.0.0.1 that
      the filter rejects, and the rules are flagged exact. */
  method LowerPrefix() returns (t: Tables)
    ensures t.exact
    ensures forall other: Others ::
              var s := From4(1, other);
              AgreesWith(false, PREFIX, s) && !Accepted(PREFIX, s) && TableMatches(t, s.attrs)
  {
    hide CubesFrom, Visits, Rendered, TooMany, TableMatches, Accepts, TablesValid, Superset, Subset, Encodable, Clean;
    var result := L.Lower(Network, PREFIX);
    t := result.value;
    PrefixCubes();
    FewCubes(Outbound(4).(src := SINGLE));
    forall other: Others
      ensures t.exact
      ensures var s := From4(1, other); AgreesWith(false, PREFIX, s) && !Accepted(PREFIX, s) && TableMatches(t, s.attrs)
    {
      PrefixAdds(t, other);
    }
    PrefixAdds(t, (f, i) => None);
  }

  lemma PrefixAdds(t: Tables, other: Others)
    requires Rendered([Outbound(4).(src := SINGLE)], t)
    ensures t.exact
    ensures var s := From4(1, other); AgreesWith(false, PREFIX, s) && !Accepted(PREFIX, s) && TableMatches(t, s.attrs)
  {
    hide Rendered, TableMatches, Matches4, Encoded, Claimed, Accepts, AgreesWith;
    var s, c := From4(1, other), Outbound(4).(src := SINGLE);
    SingleRule4(c, t, s.attrs);
    var x: AddrCode, y: AddrCode :| Encoded(c.src, x) && Encoded(c.dst, y) && Reads4(c, t.v4[0], x, y);
    ForeignPrefix(x);
    OpenEverywhere(y);
    ClaimedEnds(x);
    PrefixRejects(other);
    hide AddrCode.Has4;
  }

  lemma PrefixRejects(other: Others)
    ensures AgreesWith(false, PREFIX, From4(1, other)) && !Accepted(PREFIX, From4(1, other))
  {
    hide Accepts;
    AcceptsChain(PREFIX, From4(1, other).view);
  }

  lemma OpenEverywhere(y: AddrCode)
    requires Encoded(Addr.FULL, y)
    ensures (forall x: u32 :: y.Has4(x)) && (forall x: nat :: y.Has6(x))
  {
    ValOfConstants();
  }

  lemma ClaimedEnds(x: AddrCode)
    requires Encoded(SINGLE, x) && x.whole
    ensures Claimed(SINGLE) && Claimed(Addr.FULL)
  {
    hide Claimed;
    WholeIsClaimed(SINGLE, x.bits, x.whole, x.ip, x.mask, x.active, x.invert);
    FullClaimed();
  }

  lemma FullClaimed()
    ensures Claimed(Addr.FULL) && Claimed(HOLED_BLOCK)
  {
    ValOfConstants();
  }

  /** Lowering the test for `::ffff:0:0/96` without `::ffff:0:5` captures a packet from `::1` that the
      filter rejects, and the rules are flagged exact. */
  method LowerBlock() returns (t: Tables)
    ensures t.exact
    ensures forall other: Others ::
              var s := From6([1, 0, 0, 0], other);
              AgreesWith(false, BLOCK, s) && !Accepted(BLOCK, s) && TableMatches(t, s.attrs)
  {
    hide CubesFrom, Visits, Rendered, TooMany, TableMatches, Accepts, TablesValid, Superset, Subset, Encodable, Clean;
    var result := L.Lower(Network, BLOCK);
    t := result.value;
    BlockCubes();
    FewCubes(Wide(HOLED_BLOCK));
    forall other: Others
      ensures var s := From6([1, 0, 0, 0], other);
              AgreesWith(false, BLOCK, s) && !Accepted(BLOCK, s) && TableMatches(t, s.attrs)
    {
      BlockAdds(t, other);
    }
    BlockAdds(t, (f, i) => None);
  }

  lemma BlockAdds(t: Tables, other: Others)
    requires Rendered([Wide(HOLED_BLOCK)], t)
    ensures t.exact
    ensures var s := From6([1, 0, 0, 0], other);
            AgreesWith(false, BLOCK, s) && !Accepted(BLOCK, s) && TableMatches(t, s.attrs)
  {
    hide Rendered, TableMatches, Matches6, Encoded, Claimed, Accepts, AgreesWith;
    var s, c := From6([1, 0, 0, 0], other), Wide(HOLED_BLOCK);
    SingleRule6(c, t, s.attrs);
    var x: AddrCode, y: AddrCode :| Encoded(c.src, x) && Encoded(c.dst, y) && Reads6(c, t.v6[0], x, y);
    HoledBlock(x);
    OpenEverywhere(y);
    BlockRejects(other);
    FullClaimed();
    hide AddrCode.Has6;
  }

  lemma BlockRejects(other: Others)
    ensures AgreesWith(false, BLOCK, From6([1, 0, 0, 0], other)) && !Accepted(BLOCK, From6([1, 0, 0, 0], other))
  {
    hide Accepts;
    AcceptsChain(BLOCK, From6([1, 0, 0, 0], other).view);
    assert !Truth(BLOCK[0], From6([1, 0, 0, 0], other).view);
  }

  /** On IPv6 the same exclusion is lowered right, although its literal is not IPv4. */
  lemma HoleInIpv6()
    ensures Forward(HOLE6) && Encodable(CubesOf(false, HOLE6)) && Clean(CubesOf(false, HOLE6))
    ensures !LiteralsFit(HOLE6)
  {
    HoleCubes(HOLE6);
    ValOfConstants();
    assert !FittingLiteral(HOLE6[2]);
    hide CubesFrom, Whole;
  }

  /** `outbound and remoteAddr == x` for an IPv4 address `x` */
  function Remote(x: u32): seq<Insn> {
    [Present(OUTBOUND, 1), Insn(REMOTEADDR, EQ, false, MappedWords(x), Accept, Reject)]
  }

  function RemoteCube(x: u32): Cube {
    Init().(ver := 4, dir := 2, dst := Addr.Addr(MappedWords(x), MappedWords(x), ZEROES, false))
  }

  lemma RemoteStep(x: u32)
    ensures SplitCubes(false, Remote(x)[1], true, Init().(dir := 2)) == [RemoteCube(x)]
  {
    ValOfConstants();
    MappedVal(x);
    var c := Init().(dir := 2);
    assert EndpointCubes(Remote(x)[1], c, 1) == [];
    assert EndpointCubes(Remote(x)[1], c, 2) == [RemoteCube(x)];
  }

  lemma RemoteCubes(x: u32)
    ensures Forward(Remote(x)) && WithinBudget(false, Remote(x)) && CubesOf(false, Remote(x)) == [RemoteCube(x)]
    ensures Lowerable(false, Remote(x)) && LiteralsFit(Remote(x)) && LiteralsMapped(Remote(x))
  {
    RemoteStep(x);
    assert SplitCubes(false, Remote(x)[0], true, Init()) == [Init().(dir := 2)];
    hide SplitCubes, RemoteCube;
    Passes(Remote(x), 0, Init(), Init().(dir := 2));
    Passes(Remote(x), 1, Init().(dir := 2), RemoteCube(x));
  }

  /** Filters on an IPv4 address of the other end are lowered exactly, and say so. */
  method LowerRemote(x: u32) returns (t: Tables)
    ensures Forward(Remote(x)) && t.exact && Superset(Remote(x), t) && Subset(Remote(x), t)
  {
    hide CubesFrom, Visits, Rendered, TooMany, TableMatches, Accepts, TablesValid, Superset, Subset, Encodable, Clean;
    RemoteCubes(x);
    hide Lowerable, LiteralsFit;
    var result := L.Lower(Network, Remote(x));
    t := result.value;
    FewCubes(RemoteCube(x));
    RemoteExact(x, t);
  }

  lemma RemoteExact(x: u32, t: Tables)
    requires Rendered([RemoteCube(x)], t)
    ensures t.exact && Clean([RemoteCube(x)])
  {
    hide Rendered, Claimed;
    ValOfConstants();
    MappedVal(x);
    SingleClaimed(MappedWords(x));
    FullClaimed();
    MarkedExact(RemoteCube(x), t);
  }

  lemma MarkedExact(c: Cube, t: Tables)
    requires Rendered([c], t) && c.exact && Whole(c)
    ensures t.exact
  {
    hide Whole, Renders4, Renders6, ForVersion;
  }

  lemma SingleClaimed(w: Words)
    ensures Claimed(Addr.Addr(w, w, ZEROES, false))
  {
    hide Top, Low, Pow2;
    ValBounds(w);
    TopAll(Val(w));
    PowOne();
    assert IsPrefix(Addr.Addr(w, w, ZEROES, false), 128);
  }
}
