/** Which IPv6 texts make the parser leave its arrays or ignore part of the text. */
module Ipv6Bounds {
  import opened Words
  import opened Filter
  import opened Decimal
  import opened Ipv4Text
  import opened Hex
  import opened Ipv6Text

  /** At most eight groups are read, and at most seven in front of an IPv4 address. */
  predicate Fits8(g: Groups) {
    |g.left| + |g.right| <= if g.tail.Some? then 7 else 8
  }

  lemma {:induction false} GroupsFit(s: string, k: nat, left: bool, g: Groups)
    requires k <= 8 && |g.left| + |g.right| == k && g.tail.None?
    ensures ParseGroups(s, k, left, g).Some? ==> Fits8(ParseGroups(s, k, left, g).value)
    decreases 8 - k, 1
  {
    if k < 8 {
      if s != "" && s[0] == ':' {
        GroupFits(s[1..], k, false, g);
      } else {
        GroupFits(s, k, left, g);
      }
    }
  }

  lemma {:induction false} GroupFits(s: string, k: nat, left: bool, g: Groups)
    requires k < 8 && |g.left| + |g.right| == k && g.tail.None?
    ensures ParseGroup(s, k, left, g).Some? ==> Fits8(ParseGroup(s, k, left, g).value)
    decreases 8 - k, 0
  {
    hide ParseV4, Group, ParseGroups;
    var n := XRun(s, 4);
    if n < |s| && s[n] == ':' {
      GroupsFit(s[n + 1..], k + 1, left, AddGroup(g, left, Group(s[..n])));
    }
  }

  lemma TextFits(s: string)
    requires ParseText(s).Some?
    ensures Fits8(ParseText(s).value)
  {
    hide ParseGroups;
    if s != "" && s[0] == ':' {
      if 2 < |s| {
        GroupsFit(s[2..], 0, false, NO_GROUPS);
      }
    } else {
      GroupsFit(s, 0, true, NO_GROUPS);
    }
  }

  /** Assembling stays inside the array unless seven groups and an IPv4 address follow a leading `::`. */
  lemma BoundsIff(s: string)
    requires ParseText(s).Some?
    ensures var g := ParseText(s).value;
            (InBounds(g) <==> !(g.tail.Some? && |g.right| == 7)) && (!InBounds(g) ==> g.left == [])
  {
    hide ParseText;
    TextFits(s);
    var g := ParseText(s).value;
    if g.tail.Some? && |g.right| == 7 {
      assert RightIndex(7, Placed(g)) == 8;
    }
  }

  /** The result depends on what lies behind the array exactly for the texts that leave it and are
      read as an address when that is zero. */
  lemma StrayIff(s: string)
    ensures (exists x: u16 :: ParseV6(s, x) != ParseV6(s, 0))
            <==> ParseText(s).Some? && !InBounds(ParseText(s).value) && ParseV6(s, 0).Some?
  {
    hide ParseText, Assemble, FromGroups, InBounds;
    if ParseText(s).Some? {
      var g := ParseText(s).value;
      if InBounds(g) {
        forall x: u16 ensures ParseV6(s, x) == ParseV6(s, 0) {
          StrayUnread(g, x);
        }
      } else {
        BoundsIff(s);
        forall x: u16 ensures ParseV6(s, x) == if x == 0 then ParseV6(s, 0) else None {
          StrayRefused(g, x);
        }
        assert ParseV6(s, 1) == None;
      }
    }
  }

  lemma StrayUnread(g: Groups, x: u16)
    requires InBounds(g)
    ensures Assemble(g, x) == Assemble(g, 0)
  {
    hide Or16, At, RightIndex, Placed;
  }

  lemma StrayRefused(g: Groups, x: u16)
    requires g.left == [] && g.tail.Some? && |g.right| == 7
    ensures x != 0 ==> FromGroups(Assemble(g, x))[0] != 0
  {
    hide Or16;
    Or16Zero(x);
    assert At(g.left, 7) == 0;
    assert Assemble(g, x)[7] == x;
  }

  /** A leading `::`, seven groups and an IPv4 address. */
  function SevenAndTail(a: seq<u16>, addr: u32): string {
    "::" + Each(a) + V4Text(addr)
  }

  lemma SevenRead(a: seq<u16>, addr: u32)
    requires |a| == 7
    ensures ParseText(SevenAndTail(a, addr)) == Some(Groups([], a, Some(addr)))
  {
    hide ParseGroups, Each, V4Text, ParseV4;
    var s := SevenAndTail(a, addr);
    var rest := Each(a) + V4Text(addr);
    assert s == "::" + rest && s[2..] == rest;
    V4TextStarts(addr);
    assert rest != "";
    ParseEach(a, V4Text(addr), 0, false, NO_GROUPS);
    FirstGroups(a);
    V4RoundTrip(addr);
    TailRead(V4Text(addr), 7, Groups([], a, None));
  }

  lemma TailRead(s: string, k: nat, g: Groups)
    requires k < 8 && s != "" && s[0] != ':' && |g.left| < 6 && ParseV4(s).Some?
    ensures ParseGroups(s, k, false, g) == Some(g.(tail := ParseV4(s)))
  {
    hide ParseV4, XRun;
  }

  lemma V4TextStarts(addr: u32)
    ensures V4Text(addr) != "" && V4Text(addr)[0] != ':'
  {
    hide V4Text;
    V4RoundTrip(addr);
    if ':' in V4Text(addr) {
      ColonNotIPv4(V4Text(addr), 4);
    }
  }

  /** Such a text, for instance `::0:0:0:0:0:0:0:1.2.3.4`, reads behind the array, and with zero
      groups it is read or refused by what it finds there. */
  lemma OutOfBounds(addr: u32)
    ensures var s := SevenAndTail(SEVEN_ZEROES, addr);
            && ParseText(s).Some? && !InBounds(ParseText(s).value)
            && ParseV6(s, 0) == Some([addr, 0, 0, 0]) && ParseV6(s, 1) == None
  {
    hide ParseText, SevenAndTail, ParseV6, InBounds;
    var s := SevenAndTail(SEVEN_ZEROES, addr);
    SevenRead(SEVEN_ZEROES, addr);
    BoundsIff(s);
    ReadOutside(s, addr);
  }

  lemma StrayText()
    ensures SevenAndTail(SEVEN_ZEROES, 0x0102_0304) == "::0:0:0:0:0:0:0:1.2.3.4"
  {
    hide Each, V4Text;
    OneTwoThreeFour();
    NoText();
    EachZero([], [0], "", "0:");
    EachZero([0], [0, 0], "0:", "0:0:");
    EachZero([0, 0], [0, 0, 0], "0:0:", "0:0:0:");
    EachZero([0, 0, 0], [0, 0, 0, 0], "0:0:0:", "0:0:0:0:");
    EachZero([0, 0, 0, 0], [0, 0, 0, 0, 0], "0:0:0:0:", "0:0:0:0:0:");
    EachZero([0, 0, 0, 0, 0], [0, 0, 0, 0, 0, 0], "0:0:0:0:0:", "0:0:0:0:0:0:");
    EachZero([0, 0, 0, 0, 0, 0], [0, 0, 0, 0, 0, 0, 0], "0:0:0:0:0:0:", "0:0:0:0:0:0:0:");
  }

  lemma EachZero(a: seq<u16>, b: seq<u16>, t: string, u: string)
    requires b == [0] + a && u == "0:" + t && t == Each(a)
    ensures Each(b) == u
  {
    assert b[1..] == a && HexText(0) == "0";
  }

  lemma OneTwoThreeFour()
    ensures V4Text(0x0102_0304) == "1.2.3.4"
  {
    assert Octets(0x0102_0304) == [1, 2, 3, 4];
    assert DecText(4) == "4" && OctetsText([4]) == "4";
    hide OctetsText, DecText, Octets;
    OctetInFront(3, [4], [3, 4], "4", "3.4");
    OctetInFront(2, [3, 4], [2, 3, 4], "3.4", "2.3.4");
    OctetInFront(1, [2, 3, 4], [1, 2, 3, 4], "2.3.4", "1.2.3.4");
  }

  lemma OctetInFront(x: u8, a: seq<u8>, b: seq<u8>, t: string, u: string)
    requires x < 10 && a != [] && b == [x] + a && u == [DigitChar(x)] + "." + t && t == OctetsText(a)
    ensures OctetsText(b) == u
  {
    assert b[1..] == a && DecText(x) == [DigitChar(x)];
  }

  const SEVEN_ZEROES: seq<u16> := [0, 0, 0, 0, 0, 0, 0]

  lemma ReadOutside(s: string, addr: u32)
    requires ParseText(s) == Some(Groups([], SEVEN_ZEROES, Some(addr)))
    ensures ParseV6(s, 0) == Some([addr, 0, 0, 0]) && ParseV6(s, 1) == None
  {
    hide ParseText, Assemble;
    var g := Groups([], SEVEN_ZEROES, Some(addr));
    ZeroesAssembled(g);
    StrayRefused(g, 1);
    assert ZEROES[0 := addr] == [addr, 0, 0, 0];
  }

  lemma ZeroesAssembled(g: Groups)
    requires g.left == [] && g.tail.Some? && g.right == SEVEN_ZEROES
    ensures FromGroups(Assemble(g, 0)) == ZEROES
  {
    hide Or16;
    Or16Zero(0);
    assert forall p :: 0 <= p < 8 ==> RightAt(g, p, 0) == 0;
    assert forall p :: 0 <= p < 8 ==> Assemble(g, 0)[p] == 0;
  }

  /** Once eight groups and a colon are read, any text may follow. */
  lemma AnythingAfterEight(a: seq<u16>, rest: string, stray: u16)
    requires |a| == 8
    ensures ParseV6(Each(a) + rest, stray) == Some(FromGroups(a))
  {
    hide ParseGroups, Each, Assemble, FromGroups, Or16, ParseText;
    TextStarts(a);
    NoLeadingColon(Each(a), rest);
    ParseEach(a, rest, 0, true, NO_GROUPS);
    FirstGroups(a);
    EightRead(rest, Groups(a, [], None));
    AssembleGroups(a, 8, 0, stray);
    assert a[..8] == a && a[8 + 0..] == [];
  }

  lemma EightRead(s: string, g: Groups)
    ensures ParseGroups(s, 8, true, g) == Some(g)
  {
  }
}
