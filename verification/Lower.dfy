/** From a compiled filter to the kernel's rule tables. */
module Lower {
  import opened Words
  import opened Fields
  import opened Filter
  import opened Cube
  import opened Bits
  import opened Rules
  import opened Encode
  import opened EncodeAddress
  import opened Split
  import opened Walk
  import opened Tight
  import Addr

  const MAX_RULES := 64

  /** The lowered tables; `exact` claims that they match exactly the filter. */
  datatype Tables = Tables(v4: seq<Rule4>, v6: seq<Rule6>, exact: bool)

  predicate TableMatches(t: Tables, a: Attrs) {
    if a.ver == 4 then exists i :: 0 <= i < |t.v4| && Matches4(t.v4[i], a)
    else exists i :: 0 <= i < |t.v6| && Matches6(t.v6[i], a)
  }

  /** A cube in its parts, for a cube of a packet walk. */
  lemma InParts(c: Cube, a: Attrs)
    requires Shaped(false, c) && a.Valid()
    ensures c.In(a) <==>
            (c.ver == 0 || a.ver == c.ver) && InCommon(c, a) && c.src.Has(Val(a.src)) && c.dst.Has(Val(a.dst))
  {
  }

  /** Adds the encoded addresses to the shared part of a rule. */
  function WithAddresses(r: Common, src: bool, srcInv: bool, dst: bool, dstInv: bool): Common {
    r.(active := r.active + (if src then {SRC_IP} else {}) + (if dst then {DST_IP} else {}),
       inverted := r.inverted + (if src && srcInv then {SRC_IP} else {}) + (if dst && dstInv then {DST_IP} else {}))
  }

  lemma WithAddressesBits(r: Common, src: bool, srcInv: bool, dst: bool, dstInv: bool)
    requires Armed(r) && NoAddressOrAction(r)
    ensures var w := WithAddresses(r, src, srcInv, dst, dstInv);
            && Armed(w) && NoAction(w)
            && (forall x :: Cond(w, SRC_IP, x) <==> (src ==> x != srcInv))
            && (forall x :: Cond(w, DST_IP, x) <==> (dst ==> x != dstInv))
            && (forall a: Attrs :: MatchesCommon(w, a) <==> MatchesCommon(r, a))
  {
  }

  predicate NoAction(r: Common) {
    SNIFF !in r.active && DROP !in r.active
  }

  /** The rule matches the packets that pass its shared part and both encoded addresses. */
  ghost predicate Reads4(c: Cube, r: Rule4, s: AddrCode, d: AddrCode) {
    forall a: Attrs :: a.Valid() && a.ver == 4 ==>
      (Matches4(r, a) <==> HullCommon(c, a) && s.Has4(a.src[0]) && d.Has4(a.dst[0]))
  }

  ghost predicate Reads6(c: Cube, r: Rule6, s: AddrCode, d: AddrCode) {
    forall a: Attrs :: a.Valid() && a.ver == 6 ==>
      (Matches6(r, a) <==> HullCommon(c, a) && s.Has6(Val(a.src)) && d.Has6(Val(a.dst)))
  }

  /** The cubes whose rules claim to be complete. */
  predicate Whole(c: Cube) {
    FitsCommon(c) && Claimed(c.src) && Claimed(c.dst)
  }

  /** The cubes whose rules of a version are complete. */
  predicate Sharp(c: Cube, ver: nat) {
    Whole(c) && if ver == 4 then Clean4(c.src) && Clean4(c.dst) else Clean128(c.src) && Clean128(c.dst)
  }

  ghost predicate Renders4(c: Cube, r: Rule4) {
    && (exists s: AddrCode, d: AddrCode :: Encoded(c.src, s) && Encoded(c.dst, d) && Reads4(c, r, s, d))
    && (Sharp(c, 4) ==> forall a: Attrs :: a.Valid() && Matches4(r, a) ==> c.In(a))
  }

  ghost predicate Renders6(c: Cube, r: Rule6) {
    && (exists s: AddrCode, d: AddrCode :: Encoded(c.src, s) && Encoded(c.dst, d) && Reads6(c, r, s, d))
    && (Sharp(c, 6) ==> forall a: Attrs :: a.Valid() && Matches6(r, a) ==> c.In(a))
  }

  /** The rule for IPv4.  It keeps the cube's packets if no hole is foreign, and matches
      nothing else if it says so and the address intervals are clean. */
  method EmitV4(c: Cube) returns (whole: bool, rule: Rule4)
    requires Shaped(false, c) && c.ver != 6
    ensures Armed(rule.common) && NoAction(rule.common)
    ensures Sound4(c.src) && Sound4(c.dst) ==>
              forall a: Attrs :: a.Valid() && a.ver == 4 && c.In(a) ==> Matches4(rule, a)
    ensures whole && Clean4(c.src) && Clean4(c.dst) ==>
              forall a: Attrs :: a.Valid() && Matches4(rule, a) ==> c.In(a)
    ensures (whole <==> Whole(c)) && Renders4(c, rule)
  {
    hide Cube.In, WithAddresses, MatchesCommon, InCommon, HullCommon, AddrEncoding, Clean4, Sound4, Mask4, Claimed;
    hide Matches4, Attrs.Valid, Armed, Reads4, NoAddressOrAction, NoAction, FitsCommon;
    var okC, common := EncodeCommon(c);
    var okS, sip, smask, son, sinv, sbits := EncodeAddr(c.src);
    var okD, dip, dmask, don, dinv, dbits := EncodeAddr(c.dst);
    rule := Rule4(sip[0], Mask4(smask), dip[0], Mask4(dmask), WithAddresses(common, son, sinv, don, dinv));
    whole := okC && okS && okD;
    ghost var s := AddrCode(sbits, okS, sip, smask, son, sinv);
    ghost var d := AddrCode(dbits, okD, dip, dmask, don, dinv);
    forall a: Attrs | a.Valid() && a.ver == 4
      ensures Sound4(c.src) && Sound4(c.dst) && c.In(a) ==> Matches4(rule, a)
      ensures whole && Clean4(c.src) && Clean4(c.dst) && Matches4(rule, a) ==> c.In(a)
    {
      Covers4(c, common, okC, rule, s, d, a);
    }
    WholeIsClaimed(c.src, sbits, okS, sip, smask, son, sinv);
    WholeIsClaimed(c.dst, dbits, okD, dip, dmask, don, dinv);
    Rendered4(c, common, rule, s, d);
    Only4(rule);
  }

  lemma Only4(rule: Rule4)
    ensures forall a: Attrs :: a.Valid() && Matches4(rule, a) ==> a.ver == 4
  {
    hide MaskedEq, MatchesCommon, Cond;
  }

  lemma Covers4(c: Cube, common: Common, okC: bool, rule: Rule4, s: AddrCode, d: AddrCode, a: Attrs)
    requires Shaped(false, c) && c.ver != 6 && a.Valid() && a.ver == 4
    requires Encoded(c.src, s) && Encoded(c.dst, d) && Armed(common) && NoAddressOrAction(common)
    requires rule == Rule4(s.ip[0], Mask4(s.mask), d.ip[0], Mask4(d.mask),
                           WithAddresses(common, s.active, s.invert, d.active, d.invert))
    requires (InCommon(c, a) ==> MatchesCommon(common, a)) && (okC && MatchesCommon(common, a) ==> InCommon(c, a))
    ensures Sound4(c.src) && Sound4(c.dst) && c.In(a) ==> Matches4(rule, a)
    ensures okC && s.whole && d.whole && Clean4(c.src) && Clean4(c.dst) && Matches4(rule, a) ==> c.In(a)
  {
    WithAddressesBits(common, s.active, s.invert, d.active, d.invert);
    InParts(c, a);
    hide Cube.In, Addr.Addr.Has, Val, Clean4, Sound4, Mask4, MaskedEq, InMasked4;
    hide WithAddresses, MatchesCommon, InCommon, AddrEncoding, Cond, NoAddressOrAction;
    Address4(c.src, s.bits, s.whole, s.ip, s.mask, s.active, s.invert, a.src);
    Address4(c.dst, d.bits, d.whole, d.ip, d.mask, d.active, d.invert, a.dst);
  }

  lemma Rendered4(c: Cube, common: Common, rule: Rule4, s: AddrCode, d: AddrCode)
    requires Encoded(c.src, s) && Encoded(c.dst, d)
    requires Armed(common) && NoAddressOrAction(common)
    requires rule == Rule4(s.ip[0], Mask4(s.mask), d.ip[0], Mask4(d.mask),
                           WithAddresses(common, s.active, s.invert, d.active, d.invert))
    requires forall a: Attrs :: MatchesCommon(common, a) <==> HullCommon(c, a)
    ensures Armed(rule.common) && NoAction(rule.common) && Reads4(c, rule, s, d)
  {
    WithAddressesBits(common, s.active, s.invert, d.active, d.invert);
    hide WithAddresses, MatchesCommon, HullCommon, AddrEncoding, Cond, Mask4, MaskedEq, Attrs.Valid, NoAddressOrAction;
  }

  lemma Address4(r: Addr.Addr, bits: nat, whole: bool, ip: Words, mask: Words, active: bool, invert: bool, x: Words)
    requires AddrEncoding(r, bits, whole, ip, mask, active, invert) && IsMapped(x)
    ensures var matched := active ==> MaskedEq(x[0], ip[0], Mask4(mask)) != invert;
            && (Sound4(r) && r.Has(Val(x)) ==> matched)
            && (whole && Clean4(r) && matched ==> r.Has(Val(x)))
  {
    hide Addr.Addr.Has, AddrEncoding, Clean4, Sound4, Mask4;
    assert x == MappedWords(x[0]);
    MappedVal(x[0]);
    if Sound4(r) && r.Has(Mapped(x[0])) {
      Sound4At(r, bits, whole, ip, mask, active, invert, x[0]);
    }
    if whole && Clean4(r) && InMasked4(active, invert, ip, mask, x[0]) {
      Exact4At(r, bits, whole, ip, mask, active, invert, x[0]);
    }
  }

  /** The rule for IPv6, in network byte order. */
  method EmitV6(c: Cube) returns (whole: bool, rule: Rule6)
    requires Shaped(false, c) && c.ver != 4
    ensures Armed(rule.common) && NoAction(rule.common)
    ensures forall a: Attrs :: a.Valid() && a.ver == 6 && c.In(a) ==> Matches6(rule, a)
    ensures whole && Clean128(c.src) && Clean128(c.dst) ==>
              forall a: Attrs :: a.Valid() && Matches6(rule, a) ==> c.In(a)
    ensures (whole <==> Whole(c)) && Renders6(c, rule)
  {
    hide Cube.In, WithAddresses, MatchesCommon, InCommon, HullCommon, AddrEncoding, Clean128, ToNet, Claimed;
    hide FitsCommon, Matches6, Attrs.Valid, Armed, Reads6, NoAddressOrAction, NoAction;
    var okC, common := EncodeCommon(c);
    var okS, sip, smask, son, sinv, sbits := EncodeAddr(c.src);
    var okD, dip, dmask, don, dinv, dbits := EncodeAddr(c.dst);
    rule := Rule6(ToNet(sip), ToNet(smask), ToNet(dip), ToNet(dmask), WithAddresses(common, son, sinv, don, dinv));
    whole := okC && okS && okD;
    ghost var s := AddrCode(sbits, okS, sip, smask, son, sinv);
    ghost var d := AddrCode(dbits, okD, dip, dmask, don, dinv);
    forall a: Attrs | a.Valid() && a.ver == 6
      ensures c.In(a) ==> Matches6(rule, a)
      ensures whole && Clean128(c.src) && Clean128(c.dst) && Matches6(rule, a) ==> c.In(a)
    {
      Covers6(c, common, okC, rule, s, d, a);
    }
    WholeIsClaimed(c.src, sbits, okS, sip, smask, son, sinv);
    WholeIsClaimed(c.dst, dbits, okD, dip, dmask, don, dinv);
    Rendered6(c, common, rule, s, d);
    Only6(rule);
  }

  lemma Only6(rule: Rule6)
    ensures forall a: Attrs :: a.Valid() && Matches6(rule, a) ==> a.ver == 6
  {
    hide SameUnderMask, MatchesCommon, Cond;
  }

  lemma Covers6(c: Cube, common: Common, okC: bool, rule: Rule6, s: AddrCode, d: AddrCode, a: Attrs)
    requires Shaped(false, c) && c.ver != 4 && a.Valid() && a.ver == 6
    requires Encoded(c.src, s) && Encoded(c.dst, d) && Armed(common) && NoAddressOrAction(common)
    requires rule == Rule6(ToNet(s.ip), ToNet(s.mask), ToNet(d.ip), ToNet(d.mask),
                           WithAddresses(common, s.active, s.invert, d.active, d.invert))
    requires (InCommon(c, a) ==> MatchesCommon(common, a)) && (okC && MatchesCommon(common, a) ==> InCommon(c, a))
    ensures c.In(a) ==> Matches6(rule, a)
    ensures okC && s.whole && d.whole && Clean128(c.src) && Clean128(c.dst) && Matches6(rule, a) ==> c.In(a)
  {
    WithAddressesBits(common, s.active, s.invert, d.active, d.invert);
    InParts(c, a);
    hide Cube.In, Addr.Addr.Has, Val;
    hide WithAddresses, MatchesCommon, InCommon, AddrEncoding, Cond, Clean128, SameUnderMask, ToNet, NoAddressOrAction;
    Address6(c.src, s.bits, s.whole, s.ip, s.mask, s.active, s.invert, a.src);
    Address6(c.dst, d.bits, d.whole, d.ip, d.mask, d.active, d.invert, a.dst);
  }

  lemma Rendered6(c: Cube, common: Common, rule: Rule6, s: AddrCode, d: AddrCode)
    requires Encoded(c.src, s) && Encoded(c.dst, d)
    requires Armed(common) && NoAddressOrAction(common)
    requires rule == Rule6(ToNet(s.ip), ToNet(s.mask), ToNet(d.ip), ToNet(d.mask),
                           WithAddresses(common, s.active, s.invert, d.active, d.invert))
    requires forall a: Attrs :: MatchesCommon(common, a) <==> HullCommon(c, a)
    ensures Armed(rule.common) && NoAction(rule.common) && Reads6(c, rule, s, d)
  {
    WithAddressesBits(common, s.active, s.invert, d.active, d.invert);
    hide WithAddresses, MatchesCommon, HullCommon, AddrEncoding, Cond, SameUnderMask, ToNet, MaskedEq, Attrs.Valid;
    hide Val, NoAddressOrAction;
    forall a: Attrs | a.Valid() && a.ver == 6
      ensures Matches6(rule, a) <==> HullCommon(c, a) && s.Has6(Val(a.src)) && d.Has6(Val(a.dst))
    {
      NetCompare(a.src, s.ip, s.mask);
      NetCompare(a.dst, d.ip, d.mask);
    }
  }

  lemma Address6(r: Addr.Addr, bits: nat, whole: bool, ip: Words, mask: Words, active: bool, invert: bool, x: Words)
    requires AddrEncoding(r, bits, whole, ip, mask, active, invert)
    ensures var matched := active ==> SameUnderMask(ToNet(x), ToNet(ip), ToNet(mask)) != invert;
            && (r.Has(Val(x)) ==> matched)
            && (whole && Clean128(r) && matched ==> r.Has(Val(x)))
  {
    hide Addr.Addr.Has, AddrEncoding, Clean128, SameUnderMask, ToNet;
    NetCompare(x, ip, mask);
    ValBounds(x);
    if r.Has(Val(x)) {
      Sound128(r, bits, whole, ip, mask, active, invert, Val(x));
    }
    if whole && Clean128(r) && InMasked(active, invert, ip, mask, Val(x)) {
      Exact128(r, bits, whole, ip, mask, active, invert, Val(x));
    }
  }

  /** No cube is encoded so that it loses packets. */
  predicate Encodable(cubes: seq<Cube>) {
    forall k :: 0 <= k < |cubes| && cubes[k].ver != 6 ==> Sound4(cubes[k].src) && Sound4(cubes[k].dst)
  }

  /** No cube is encoded too widely without this showing: what claims to be complete is clean. */
  predicate Clean(cubes: seq<Cube>) {
    forall k :: 0 <= k < |cubes| ==> Honest(cubes[k])
  }

  predicate Honest(c: Cube) {
    c.exact && Whole(c) ==>
      && (c.ver != 6 ==> Clean4(c.src) && Clean4(c.dst))
      && (c.ver != 4 ==> Clean128(c.src) && Clean128(c.dst))
  }

  /** The cubes that become rules of one version, in order. */
  function ForVersion(cubes: seq<Cube>, ver: nat): seq<Cube> {
    if cubes == [] then []
    else
      var c := cubes[|cubes| - 1];
      ForVersion(cubes[..|cubes| - 1], ver) + (if c.ver == 0 || c.ver == ver then [c] else [])
  }

  lemma OneMoreForVersion(cubes: seq<Cube>, i: nat, ver: nat)
    requires i < |cubes|
    ensures ForVersion(cubes[..i + 1], ver) ==
            ForVersion(cubes[..i], ver) + (if cubes[i].ver == 0 || cubes[i].ver == ver then [cubes[i]] else [])
    ensures |ForVersion(cubes[..i + 1], ver)| <= |ForVersion(cubes, ver)|
    decreases |cubes|
  {
    var more := cubes[..i + 1];
    assert more[..i] == cubes[..i];
    if i + 1 < |cubes| {
      var init := cubes[..|cubes| - 1];
      OneMoreForVersion(init, i, ver);
      assert init[..i + 1] == more;
    } else {
      assert more == cubes;
    }
  }

  /** One rule per cube and version, in order; flagged exact if every cube is and its rules are complete. */
  ghost predicate Rendered(cubes: seq<Cube>, t: Tables) {
    && (t.exact <==> forall k :: 0 <= k < |cubes| ==> cubes[k].exact && Whole(cubes[k]))
    && |t.v4| == |ForVersion(cubes, 4)| && |t.v6| == |ForVersion(cubes, 6)|
    && (forall i :: 0 <= i < |t.v4| ==> Renders4(ForVersion(cubes, 4)[i], t.v4[i]))
    && (forall i :: 0 <= i < |t.v6| ==> Renders6(ForVersion(cubes, 6)[i], t.v6[i]))
  }

  predicate TooMany(cubes: seq<Cube>) {
    |ForVersion(cubes, 4)| > MAX_RULES || |ForVersion(cubes, 6)| > MAX_RULES
  }

  predicate InSome(cubes: seq<Cube>, a: Attrs) {
    exists k :: 0 <= k < |cubes| && cubes[k].In(a)
  }

  const MATCH_ALL := Common({ENABLED}, {}, 0, 0, 0, 0, {}, {}, 0, 0, 0, 0)

  /** The fallback: capture everything and filter in user space. */
  function MatchAll(): Tables {
    var zero: Bytes16 := [0, 0, 0, 0, 0, 0, 0, 0, 0, 0, 0, 0, 0, 0, 0, 0];
    Tables([Rule4(0, 0, 0, 0, MATCH_ALL)], [Rule6(zero, zero, zero, zero, MATCH_ALL)], false)
  }

  lemma MatchAllMatches(a: Attrs)
    requires a.Valid()
    ensures TableMatches(MatchAll(), a)
  {
    hide SameUnderMask;
    assert Matches4(MatchAll().v4[0], a) || Matches6(MatchAll().v6[0], a);
  }

  predicate TablesValid(t: Tables) {
    && |t.v4| <= MAX_RULES && |t.v6| <= MAX_RULES
    && (forall i :: 0 <= i < |t.v4| ==> Armed(t.v4[i].common) && NoAction(t.v4[i].common))
    && (forall i :: 0 <= i < |t.v6| ==> Armed(t.v6[i].common) && NoAction(t.v6[i].common))
  }

  /** Encodes the cubes family by family; more than 64 rules fall back to capturing everything. */
  method EmitTables(cubes: seq<Cube>) returns (t: Tables)
    requires forall k :: 0 <= k < |cubes| ==> Shaped(false, cubes[k])
    ensures TablesValid(t)
    ensures Encodable(cubes) ==> forall a: Attrs :: a.Valid() && InSome(cubes, a) ==> TableMatches(t, a)
    ensures t.exact ==> forall k :: 0 <= k < |cubes| ==> cubes[k].exact
    ensures t.exact && Clean(cubes) ==> forall a: Attrs :: a.Valid() && TableMatches(t, a) ==> InSome(cubes, a)
    ensures if TooMany(cubes) then t == MatchAll() else Rendered(cubes, t)
  {
    hide Cube.In, Matches4, Matches6, Sound4, Clean4, Clean128, Shaped, Armed, NoAction, Claimed, Renders4, Renders6;
    hide ForVersion, Whole;
    NoCubes(cubes);
    t := Tables([], [], true);
    for i := 0 to |cubes|
      invariant TablesValid(t)
      invariant t.exact ==> forall k :: 0 <= k < i ==> cubes[k].exact
      invariant Encodable(cubes) ==> Held(cubes[..i], t)
      invariant t.exact && Clean(cubes) ==> Only(cubes[..i], t)
      invariant Rendered(cubes[..i], t)
    {
      var c := cubes[i];
      OneMoreForVersion(cubes, i, 4);
      OneMoreForVersion(cubes, i, 6);
      VersionOfShaped(c);
      ghost var before := t;
      var whole4, rule4, whole6, rule6 := true, MatchAll().v4[0], true, MatchAll().v6[0];
      if c.ver != 6 {
        if |t.v4| == MAX_RULES {
          assert |ForVersion(cubes[..i + 1], 4)| > MAX_RULES;
          t := Fallback();
          return;
        }
        whole4, rule4 := EmitV4(c);
        t := t.(v4 := t.v4 + [rule4]);
      }
      if c.ver != 4 {
        if |t.v6| == MAX_RULES {
          assert |ForVersion(cubes[..i + 1], 6)| > MAX_RULES;
          t := Fallback();
          return;
        }
        whole6, rule6 := EmitV6(c);
        t := t.(v6 := t.v6 + [rule6]);
      }
      t := t.(exact := t.exact && c.exact && whole4 && whole6);
      VersionOfIn(c);
      assert Clean(cubes) ==> Honest(c);
      EmitStep(cubes, i, before, rule4, rule6, t);
      RenderedStep(cubes, i, before, rule4, rule6, t);
    }
    assert cubes[..|cubes|] == cubes;
  }

  lemma RenderedStep(cubes: seq<Cube>, i: nat, t: Tables, r4: Rule4, r6: Rule6, t': Tables)
    requires i < |cubes| && Rendered(cubes[..i], t)
    requires t'.v4 == (if cubes[i].ver != 6 then t.v4 + [r4] else t.v4)
    requires t'.v6 == (if cubes[i].ver != 4 then t.v6 + [r6] else t.v6)
    requires t'.exact == (t.exact && cubes[i].exact && Whole(cubes[i]))
    requires cubes[i].ver == 0 || cubes[i].ver == 4 || cubes[i].ver == 6
    requires (cubes[i].ver != 6 ==> Renders4(cubes[i], r4)) && (cubes[i].ver != 4 ==> Renders6(cubes[i], r6))
    ensures Rendered(cubes[..i + 1], t')
  {
    hide ForVersion, Renders4, Renders6, Whole;
    OneMoreForVersion(cubes, i, 4);
    OneMoreForVersion(cubes, i, 6);
  }

  lemma NoCubes(cubes: seq<Cube>)
    ensures Rendered(cubes[..0], Tables([], [], true))
  {
  }

  /** Every packet of the cubes is matched. */
  ghost predicate Held(cubes: seq<Cube>, t: Tables) {
    forall a: Attrs :: a.Valid() && InSome(cubes, a) ==> TableMatches(t, a)
  }

  /** Only packets of the cubes are matched. */
  ghost predicate Only(cubes: seq<Cube>, t: Tables) {
    forall a: Attrs :: a.Valid() && TableMatches(t, a) ==> InSome(cubes, a)
  }

  lemma VersionOfShaped(c: Cube)
    requires Shaped(false, c)
    ensures c.ver == 0 || c.ver == 4 || c.ver == 6
  {
  }

  lemma VersionOfIn(c: Cube)
    ensures forall a: Attrs :: c.In(a) ==> c.ver == 0 || a.ver == c.ver
  {
  }

  method Fallback() returns (t: Tables)
    ensures TablesValid(t) && t == MatchAll()
    ensures forall a: Attrs :: a.Valid() ==> TableMatches(t, a)
  {
    t := MatchAll();
    forall a: Attrs | a.Valid() ensures TableMatches(t, a) {
      MatchAllMatches(a);
    }
  }

  lemma EmitStep(cubes: seq<Cube>, i: nat, t: Tables, r4: Rule4, r6: Rule6, t': Tables)
    requires i < |cubes|
    requires t'.v4 == (if cubes[i].ver != 6 then t.v4 + [r4] else t.v4)
    requires t'.v6 == (if cubes[i].ver != 4 then t.v6 + [r6] else t.v6)
    requires t'.exact ==> t.exact
    requires Encodable(cubes) ==> Held(cubes[..i], t)
    requires t.exact && Clean(cubes) ==> Only(cubes[..i], t)
    requires Encodable(cubes) && cubes[i].ver != 6 ==>
               forall a: Attrs :: a.Valid() && a.ver == 4 && cubes[i].In(a) ==> Matches4(r4, a)
    requires t'.exact && Clean(cubes) && cubes[i].ver != 6 ==> forall a: Attrs :: a.Valid() && Matches4(r4, a) ==>
               cubes[i].In(a)
    requires cubes[i].ver != 4 ==> forall a: Attrs :: a.Valid() && a.ver == 6 && cubes[i].In(a) ==> Matches6(r6, a)
    requires t'.exact && Clean(cubes) && cubes[i].ver != 4 ==> forall a: Attrs :: a.Valid() && Matches6(r6, a) ==>
               cubes[i].In(a)
    requires forall a: Attrs :: cubes[i].In(a) ==> cubes[i].ver == 0 || a.ver == cubes[i].ver
    ensures Encodable(cubes) ==> Held(cubes[..i + 1], t')
    ensures t'.exact && Clean(cubes) ==> Only(cubes[..i + 1], t')
  {
    hide Cube.In, Matches4, Matches6, Encodable, Clean;
    if Encodable(cubes) {
      forall a: Attrs | a.Valid() && InSome(cubes[..i + 1], a) ensures TableMatches(t', a) {
        var k :| 0 <= k <= i && cubes[k].In(a);
        if k < i {
          assert cubes[..i][k].In(a);
          TableGrows(t, t', a);
        } else if a.ver == 4 {
          assert t'.v4[|t.v4|] == r4;
        } else {
          assert t'.v6[|t.v6|] == r6;
        }
      }
    }
    if t'.exact && Clean(cubes) {
      forall a: Attrs | a.Valid() && TableMatches(t', a) ensures InSome(cubes[..i + 1], a) {
        if TableMatches(t, a) {
          var k :| 0 <= k < i && cubes[..i][k].In(a);
          assert cubes[..i + 1][k].In(a);
        } else {
          LastMatches(t, t', r4, r6, a);
          assert cubes[..i + 1][i].In(a);
        }
      }
    }
  }

  lemma TableGrows(t: Tables, t': Tables, a: Attrs)
    requires TableMatches(t, a) && t.v4 <= t'.v4 && t.v6 <= t'.v6
    ensures TableMatches(t', a)
  {
    hide Matches4, Matches6;
    if a.ver == 4 {
      var i :| 0 <= i < |t.v4| && Matches4(t.v4[i], a);
      assert t'.v4[i] == t.v4[i];
    } else {
      var i :| 0 <= i < |t.v6| && Matches6(t.v6[i], a);
      assert t'.v6[i] == t.v6[i];
    }
  }

  lemma LastMatches(t: Tables, t': Tables, r4: Rule4, r6: Rule6, a: Attrs)
    requires a.Valid() && TableMatches(t', a) && !TableMatches(t, a)
    requires t'.v4 == t.v4 || t'.v4 == t.v4 + [r4]
    requires t'.v6 == t.v6 || t'.v6 == t.v6 + [r6]
    ensures if a.ver == 4 then t'.v4 != t.v4 && Matches4(r4, a) else t'.v6 != t.v6 && Matches6(r6, a)
  {
    hide Matches4, Matches6;
    if a.ver == 4 {
      forall i | 0 <= i < |t.v4| ensures !Matches4(t'.v4[i], a) {
        assert t'.v4[i] == t.v4[i];
      }
    } else {
      forall i | 0 <= i < |t.v6| ensures !Matches6(t'.v6[i], a) {
        assert t'.v6[i] == t.v6[i];
      }
    }
  }

  /** A walk over fitting (clean) literals leaves only encodable (clean) cubes. */
  lemma WalkedIsClean(obj: seq<Insn>, cubes: seq<Cube>)
    requires forall k :: 0 <= k < |cubes| ==> Walked(false, obj, cubes[k])
    ensures LiteralsFit(obj) ==> Encodable(cubes)
    ensures LiteralsClean(obj) ==> Clean(cubes)
  {
    hide Claimed, Clean4, Clean128;
    forall k | 0 <= k < |cubes|
      ensures LiteralsFit(obj) && cubes[k].ver != 6 ==> Sound4(cubes[k].src) && Sound4(cubes[k].dst)
      ensures LiteralsClean(obj) ==> Honest(cubes[k])
    {
      if LiteralsClean(obj) {
        WalkedIsHonest(obj, cubes[k]);
      }
    }
  }

  lemma WalkedIsHonest(obj: seq<Insn>, c: Cube)
    requires Walked(false, obj, c) && LiteralsClean(obj)
    ensures Honest(c)
  {
    hide Claimed, Shape4;
    ValOfConstants();
    if Whole(c) && c.ver == 4 {
      ShapedIsClean4(c.src);
      ShapedIsClean4(c.dst);
    }
  }

  /** The packets a filter accepts. */
  predicate Accepted(obj: seq<Insn>, s: Subject)
    requires 0 < |obj| && Forward(obj)
  {
    Accepts(obj, Jump(0), s.view)
  }

  /** The rules match every accepted packet. */
  ghost predicate Superset(obj: seq<Insn>, t: Tables)
    requires 0 < |obj| && Forward(obj)
  {
    forall s: Subject :: AgreesWith(false, obj, s) && Accepted(obj, s) ==> TableMatches(t, s.attrs)
  }

  /** The rules match no other packet. */
  ghost predicate Subset(obj: seq<Insn>, t: Tables)
    requires 0 < |obj| && Forward(obj)
  {
    forall s: Subject :: AgreesWith(false, obj, s) && TableMatches(t, s.attrs) ==> Accepted(obj, s)
  }

  /** The address is in what an encoding makes of an interval. */
  ghost predicate HullAddress(r: Addr.Addr, ver: nat, x: Words) {
    exists s: AddrCode :: Encoded(r, s) && if ver == 4 then s.Has4(x[0]) else s.Has6(Val(x))
  }

  /** The packet is in what the rule of a cube makes of it, a cube whose rule is not complete. */
  ghost predicate InBlur(c: Cube, a: Attrs) {
    && (c.ver == 0 || c.ver == a.ver) && !Sharp(c, a.ver)
    && HullCommon(c, a) && HullAddress(c.src, a.ver, a.src) && HullAddress(c.dst, a.ver, a.dst)
  }

  /** Whatever the rules match passes all the tests of some accepting path that its cubes can keep, or fits what is
      left of a cube that a rule cannot hold.  This asks nothing of the exact flags. */
  ghost predicate OnPaths(obj: seq<Insn>, t: Tables)
    requires 0 < |obj| && Forward(obj)
  {
    forall s: Subject :: AgreeingPacket(s) && TableMatches(t, s.attrs) ==>
      Selected(obj, Jump(0), Init(), s) || exists c :: c in CubesOf(false, obj) && InBlur(c, s.attrs)
  }

  lemma {:induction false} ForVersionFrom(cubes: seq<Cube>, ver: nat, i: nat)
    requires i < |ForVersion(cubes, ver)|
    ensures ForVersion(cubes, ver)[i] in cubes
    ensures ForVersion(cubes, ver)[i].ver == 0 || ForVersion(cubes, ver)[i].ver == ver
  {
    var init := cubes[..|cubes| - 1];
    if i < |ForVersion(init, ver)| {
      ForVersionFrom(init, ver, i);
    }
  }

  /** The cube behind a rule that matches. */
  lemma CubeBehind(cubes: seq<Cube>, t: Tables, a: Attrs) returns (c: Cube)
    requires Rendered(cubes, t) && a.Valid() && TableMatches(t, a)
    ensures c in cubes && (InBlur(c, a) || c.In(a))
  {
    hide Cube.In, Matches4, Matches6, HullCommon, ForVersion, Sharp, AddrEncoding, Val;
    if a.ver == 4 {
      var i :| 0 <= i < |t.v4| && Matches4(t.v4[i], a);
      c := ForVersion(cubes, 4)[i];
      ForVersionFrom(cubes, 4, i);
      assert Renders4(c, t.v4[i]);
    } else {
      var i :| 0 <= i < |t.v6| && Matches6(t.v6[i], a);
      c := ForVersion(cubes, 6)[i];
      ForVersionFrom(cubes, 6, i);
      assert Renders6(c, t.v6[i]);
    }
  }

  lemma RenderedOnPaths(obj: seq<Insn>, t: Tables)
    requires 0 < |obj| && Lowerable(false, obj) && Rendered(CubesOf(false, obj), t)
    ensures OnPaths(obj, t)
  {
    hide Cube.In, TableMatches, InBlur, Rendered, CubesFrom, Selected, AgreeingTransport, Plain;
    forall s: Subject | AgreeingPacket(s) && TableMatches(t, s.attrs)
      ensures Selected(obj, Jump(0), Init(), s) || exists c :: c in CubesOf(false, obj) && InBlur(c, s.attrs)
    {
      var c := CubeBehind(CubesOf(false, obj), t, s.attrs);
      if !InBlur(c, s.attrs) {
        Traced(obj, Jump(0), Init(), c, s);
      }
    }
  }

  /** Lowers a filter.  The rules are a superset of the filter whenever no cube has a foreign
      hole, in particular for every filter with fitting literals; and if they are flagged exact
      they are the filter whenever the cubes are clean, in particular for clean literals. */
  method Lower(layer: Layer, obj: seq<Insn>) returns (result: Option<Tables>)
    requires 0 < |obj|
    ensures result.Some? <==> layer == Network || layer == NetworkForward
    ensures result.Some? ==> TablesValid(result.value)
    ensures result.Some? && Lowerable(false, obj) ==>
              && (Encodable(CubesOf(false, obj)) || LiteralsFit(obj) ==> Superset(obj, result.value))
              && (result.value.exact && (Clean(CubesOf(false, obj)) || LiteralsClean(obj)) ==>
                Subset(obj, result.value))
    ensures result.Some? && Forward(obj) ==>
              if !WithinBudget(false, obj) || TooMany(CubesOf(false, obj)) then result.value == MatchAll()
              else Rendered(CubesOf(false, obj), result.value)
    ensures result.Some? && Lowerable(false, obj) && WithinBudget(false, obj) && !TooMany(CubesOf(false, obj)) ==>
              OnPaths(obj, result.value)
  {
    hide OnPaths, Cube.In, Encodable, Clean, Captured, Faithful, Accepts, Walked, CubesFrom, Visits, Rendered, TooMany;
    hide Lowerable;
    if layer != Network && layer != NetworkForward {
      return None;
    }
    var ctx := new Context(obj, false);
    RootWalked(obj);
    ctx.Walk(0, Init());
    ghost var cubes := ctx.cubes;
    assert Fresh(ctx.cubes, 0) == cubes;
    assert Forward(obj) && !ctx.overflow ==> cubes == [] + CubesOf(false, obj) == CubesOf(false, obj);
    var t;
    if ctx.overflow {
      t := Fallback();
    } else {
      WalkedAreShaped(obj, cubes);
      t := EmitTables(ctx.cubes);
    }
    WalkedIsClean(obj, cubes);
    PlainHere(false, obj, 0);
    if Lowerable(false, obj) {
      if ctx.overflow {
        forall s: Subject | AgreesWith(false, obj, s) ensures TableMatches(t, s.attrs) {
          SubjectValid(obj, s);
        }
      } else {
        FromCubes(obj, cubes, t);
      }
    }
    result := Some(t);
    if Lowerable(false, obj) && WithinBudget(false, obj) && !TooMany(CubesOf(false, obj)) {
      RenderedOnPaths(obj, t);
    }
  }

  lemma RootWalked(obj: seq<Insn>)
    ensures Walked(false, obj, Init())
  {
    ValOfConstants();
  }

  lemma WalkedAreShaped(obj: seq<Insn>, cubes: seq<Cube>)
    requires forall k :: 0 <= k < |cubes| ==> Walked(false, obj, cubes[k])
    ensures forall k :: 0 <= k < |cubes| ==> Shaped(false, cubes[k])
  {
  }

  lemma SubjectValid(obj: seq<Insn>, s: Subject)
    requires AgreesWith(false, obj, s)
    ensures s.attrs.Valid()
  {
  }

  /** From cubes to rules: what the walk and the encoding promise, put together. */
  lemma FromCubes(obj: seq<Insn>, cubes: seq<Cube>, t: Tables)
    requires 0 < |obj| && Forward(obj)
    requires Captured(false, obj, Jump(0), Init(), cubes) && Faithful(false, obj, Jump(0), Init(), cubes)
    requires Encodable(cubes) ==> Held(cubes, t)
    requires t.exact ==> forall k :: 0 <= k < |cubes| ==> cubes[k].exact
    requires t.exact && Clean(cubes) ==> Only(cubes, t)
    ensures Encodable(cubes) ==> Superset(obj, t)
    ensures t.exact && Clean(cubes) ==> Subset(obj, t)
  {
    hide Cube.In, Encodable, Clean, Accepts, TableMatches;
    forall s: Subject | AgreesWith(false, obj, s) ensures s.attrs.Valid() && Init().In(s.attrs) {
      SubjectValid(obj, s);
      InitHasEverything(s.attrs);
    }
    hide AgreesWith;
    if Encodable(cubes) {
      forall s: Subject | AgreesWith(false, obj, s) && Accepted(obj, s) ensures TableMatches(t, s.attrs) {
        assert Somewhere(cubes, s);
        assert InSome(cubes, s.attrs);
      }
    }
  }
}
