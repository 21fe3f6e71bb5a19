/** The text of IPv6 addresses (section 2.2 of RFC 4291): eight hexadecimal groups, one run of
    zero groups compressed. */
module Ipv6Text {
  import opened Words
  import opened Filter
  import opened Bits
  import opened Decimal
  import opened Ipv4Text
  import opened Hex

  /** The groups left of `::`, those right of it, and an IPv4 address at the end. */
  datatype Groups = Groups(left: seq<u16>, right: seq<u16>, tail: Option<u32>)

  /** Reads groups from `s` on; `k` have been read, and `left` says that no `::` was met yet. */
  function ParseGroups(s: string, k: nat, left: bool, g: Groups): Option<Groups>
    requires k <= 8
    decreases 8 - k, 1
  {
    if k == 8 then Some(g)
    else if s != "" && s[0] == ':' then
      if !left then None
      else if s[1..] == "" then Some(g)
      else ParseGroup(s[1..], k, false, g)
    else ParseGroup(s, k, left, g)
  }

  function ParseGroup(s: string, k: nat, left: bool, g: Groups): Option<Groups>
    requires k < 8
    decreases 8 - k, 0
  {
    if |g.left| < 6 && ParseV4(s).Some? then Some(g.(tail := ParseV4(s)))
    else
      var n := XRun(s, 4);
      if n == 0 then None
      else if n < |s| && s[n] != ':' then None
      else
        var g' := AddGroup(g, left, Group(s[..n]));
        if n == |s| then if !left || k == 7 then Some(g') else None
        else ParseGroups(s[n + 1..], k + 1, left, g')
  }

  function AddGroup(g: Groups, left: bool, x: u16): Groups {
    if left then g.(left := g.left + [x]) else g.(right := g.right + [x])
  }

  const NO_GROUPS := Groups([], [], None)

  function ParseText(s: string): Option<Groups> {
    if s != "" && s[0] == ':' then
      if |s| < 2 || s[1] != ':' then None
      else if s[2..] == "" then Some(NO_GROUPS)
      else ParseGroups(s[2..], 0, false, NO_GROUPS)
    else ParseGroups(s, 0, true, NO_GROUPS)
  }

  function At(a: seq<u16>, p: nat): u16 {
    if p < |a| then a[p] else 0
  }

  /** Bitwise or of two numbers of `n` bits. */
  function Or(x: nat, y: nat, n: nat): (r: nat)
    requires x < Pow2(n) && y < Pow2(n)
    ensures r < Pow2(n)
  {
    if n == 0 then 0
    else 2 * Or(x / 2, y / 2, n - 1) + if x % 2 == 1 || y % 2 == 1 then 1 else 0
  }

  lemma {:induction false} OrZero(x: nat, n: nat)
    requires x < Pow2(n)
    ensures Or(x, 0, n) == x && Or(0, x, n) == x
  {
    if n != 0 {
      OrZero(x / 2, n - 1);
    }
  }

  function Or16(x: u16, y: u16): u16 {
    Pow2Sixteen();
    Or(x, y, 16)
  }

  lemma Pow2Sixteen()
    ensures Pow2(16) == 0x1_0000
  {
    assert Pow2(8) == 0x100;
  }

  /** How many groups stand right of `::`, an IPv4 address counting for two. */
  function Placed(g: Groups): nat {
    |g.right| + if g.tail.Some? then 2 else 0
  }

  /** Where position `p` finds its group in the array of eight right ones, given `j` of them. */
  function RightIndex(p: nat, j: nat): nat {
    if p + j >= 8 then p + j - 8 else p + j
  }

  predicate InBounds(g: Groups) {
    forall p :: 0 <= p < 8 ==> RightIndex(p, Placed(g)) < 8
  }

  /** Left groups from the front and right groups up to the end, one over the other; `stray` is
      what memory holds behind the array of right groups. */
  function Assemble(g: Groups, stray: u16): (a: seq<u16>)
    ensures |a| == 8
  {
    seq(8, p requires 0 <= p < 8 => Or16(At(g.left, p), RightAt(g, p, stray)))
  }

  function RightAt(g: Groups, p: nat, stray: u16): u16 {
    var q := RightIndex(p, Placed(g));
    if q < 8 then At(g.right, q) else stray
  }

  /** Words from groups, the first group the most significant. */
  function FromGroups(a: seq<u16>): Words
    requires |a| == 8
  {
    [Pair(a[6], a[7]), Pair(a[4], a[5]), Pair(a[2], a[3]), Pair(a[0], a[1])]
  }

  function Pair(hi: u16, lo: u16): u32 {
    hi * 0x1_0000 + lo
  }

  function ToGroups(w: Words): seq<u16> {
    [w[3] / 0x1_0000, w[3] % 0x1_0000, w[2] / 0x1_0000, w[2] % 0x1_0000,
     w[1] / 0x1_0000, w[1] % 0x1_0000, w[0] / 0x1_0000, w[0] % 0x1_0000]
  }

  lemma GroupsRoundTrip(w: Words)
    ensures FromGroups(ToGroups(w)) == w
  {
  }

  function Each(a: seq<u16>): string {
    if a == [] then "" else HexText(a[0]) + ":" + Each(a[1..])
  }

  function Join(a: seq<u16>): string {
    if a == [] then "" else if |a| == 1 then HexText(a[0]) else HexText(a[0]) + ":" + Join(a[1..])
  }

  predicate NoDot(s: string) {
    forall i :: 0 <= i < |s| ==> s[i] != '.'
  }

  lemma NotIPv4(s: string)
    requires NoDot(s)
    ensures ParseV4(s) == None
  {
    hide DigitRun, Leading;
  }

  /** Text with a colon is no IPv4 address. */
  lemma {:induction false} ColonNotIPv4(s: string, n: nat)
    requires ':' in s && 0 < n
    ensures ParseOctets(s, n) == None
    decreases n
  {
    hide Leading;
    var d := DigitRun(s);
    var i :| 0 <= i < |s| && s[i] == ':';
    DigitsNoColon(s, i);
    if s[d] == '.' && n > 1 {
      var rest := s[d..];
      assert rest[1..][i - d - 1] == ':';
      ColonNotIPv4(rest[1..], n - 1);
    }
  }

  lemma DigitsNoColon(s: string, i: nat)
    requires i < |s| && s[i] == ':'
    ensures DigitRun(s) <= i
  {
    forall k | 0 <= k < DigitRun(s) ensures IsDigit(s[k]) {
      assert s[..DigitRun(s)][k] == s[k];
    }
  }

  lemma {:induction false} TextNoDot(a: seq<u16>)
    ensures NoDot(Each(a)) && NoDot(Join(a))
  {
    if a != [] {
      HexRoundTrip(a[0]);
      TextNoDot(a[1..]);
    }
  }

  /** The text of a group is one to four digits and stands for it. */
  lemma GroupText(x: u16)
    ensures var t := HexText(x); 1 <= |t| <= 4 && AllX(t) && Group(t) == x && t[0] != ':' && NoDot(t)
  {
    HexRoundTrip(x);
    HexLength(x);
    hide HexText, HexVal;
  }

  /** A group written in front of a colon. */
  lemma GroupThenColon(x: u16, rest: string, k: nat, left: bool, g: Groups)
    requires k < 8
    ensures ParseGroups(HexText(x) + ":" + rest, k, left, g) == ParseGroups(rest, k + 1, left, AddGroup(g, left, x))
  {
    hide HexText, ParseOctets, XRun, Group, AllX, IsXDigit;
    var t := HexText(x);
    var s := t + ":" + rest;
    GroupText(x);
    assert s == t + (":" + rest);
    ColonEnds(rest);
    XRunOf(t, ":" + rest, 4);
    assert s[|t|] == ':';
    ColonNotIPv4(s, 4);
    assert s[..|t|] == t && s[|t| + 1..] == rest;
    assert s[0] == t[0];
  }

  lemma ColonEnds(rest: string)
    ensures !IsXDigit((":" + rest)[0])
  {
  }

  /** The last group. */
  lemma GroupThenEnd(x: u16, k: nat, left: bool, g: Groups)
    requires k < 8 && (!left || k == 7)
    ensures ParseGroups(HexText(x), k, left, g) == Some(AddGroup(g, left, x))
  {
    hide HexText, ParseV4, XRun, Group, AllX, IsXDigit;
    var s := HexText(x);
    GroupText(x);
    assert s == s + "";
    XRunOf(s, "", 4);
    NotIPv4(s);
    assert s[..|s|] == s;
  }

  function AddGroups(g: Groups, left: bool, a: seq<u16>): Groups {
    if left then g.(left := g.left + a) else g.(right := g.right + a)
  }

  lemma {:induction false} ParseEach(a: seq<u16>, rest: string, k: nat, left: bool, g: Groups)
    requires k + |a| <= 8
    ensures ParseGroups(Each(a) + rest, k, left, g) == ParseGroups(rest, k + |a|, left, AddGroups(g, left, a))
  {
    hide HexText, ParseGroups;
    if a == [] {
      assert Each(a) + rest == rest && g.left + a == g.left && g.right + a == g.right;
    } else {
      var more := Each(a[1..]) + rest;
      assert Each(a) + rest == HexText(a[0]) + ":" + more;
      GroupThenColon(a[0], more, k, left, g);
      var g' := AddGroup(g, left, a[0]);
      ParseEach(a[1..], rest, k + 1, left, g');
      assert g'.left + a[1..] == (if left then g.left + a else g.left + a[1..]);
      assert g'.right + a[1..] == (if left then g.right + a[1..] else g.right + a);
    }
  }

  lemma {:induction false} ParseJoin(b: seq<u16>, k: nat, left: bool, g: Groups)
    requires b != [] && k + |b| <= 8 && (!left || k + |b| == 8)
    ensures ParseGroups(Join(b), k, left, g)
         == Some(AddGroups(g, left, b))
  {
    hide HexText, ParseGroups;
    if |b| == 1 {
      GroupThenEnd(b[0], k, left, g);
      assert b == [b[0]];
    } else {
      var g' := AddGroup(g, left, b[0]);
      GroupThenColon(b[0], Join(b[1..]), k, left, g);
      ParseJoin(b[1..], k + 1, left, g');
      assert b == [b[0]] + b[1..];
      assert g.left + [b[0]] + b[1..] == g.left + b;
      assert g.right + [b[0]] + b[1..] == g.right + b;
    }
  }

  function ParseV6(s: string, stray: u16): Option<Words> {
    var g :- ParseText(s);
    var w := FromGroups(Assemble(g, stray));
    if g.tail.None? then Some(w)
    else if w[3] != 0 || w[2] != 0 || w[0] != 0 || (w[1] != 0xFFFF && w[1] != 0) then None
    else Some(w[0 := g.tail.value])
  }

  /** `n` zero groups from `z` on. */
  predicate IsRun(a: seq<u16>, z: int, n: int) {
    0 <= z && 1 <= n && z + n <= |a| && forall p :: z <= p < z + n ==> a[p] == 0
  }

  /** The text with the run at `z` compressed; a negative `z` stands for no run. */
  function V6Text(a: seq<u16>, z: int, n: int): string
    requires z < 0 || IsRun(a, z, n)
  {
    if z < 0 then Join(a)
    else Each(a[..z]) + (if z == 0 then "::" else ":") + Join(a[z + n..])
  }

  lemma Or16Zero(x: u16)
    ensures Or16(x, 0) == x && Or16(0, x) == x
  {
    Pow2Sixteen();
    OrZero(x, 16);
  }

  /** Position `p` gets its group from the left or from the right, never from both. */
  lemma AssembleAt(a: seq<u16>, z: nat, n: nat, p: nat)
    requires |a| == 8 && z + n <= 8 && p < 8 && forall q :: z <= q < z + n ==> a[q] == 0
    ensures var j := 8 - z - n; RightIndex(p, j) < 8 && Or16(At(a[..z], p), At(a[z + n..], RightIndex(p, j))) == a[p]
  {
    hide Or16;
    Or16Zero(a[p]);
  }

  lemma AssembleGroups(a: seq<u16>, z: nat, n: nat, stray: u16)
    requires |a| == 8 && z + n <= 8 && forall p :: z <= p < z + n ==> a[p] == 0
    ensures Assemble(Groups(a[..z], a[z + n..], None), stray) == a
  {
    hide Or16, At, RightIndex;
    var g := Groups(a[..z], a[z + n..], None);
    forall p | 0 <= p < 8
      ensures Assemble(g, stray)[p] == a[p]
    {
      AssembleAt(a, z, n, p);
    }
  }

  lemma TextStarts(a: seq<u16>)
    requires a != []
    ensures Join(a) != "" && Join(a)[0] != ':' && Each(a) != "" && Each(a)[0] != ':'
  {
    hide HexText;
    GroupText(a[0]);
  }

  /** The second colon of `::`, and the groups behind it. */
  lemma AfterColon(l: seq<u16>, r: seq<u16>)
    requires |l| + |r| < 8
    ensures ParseGroups(":" + Join(r), |l|, true, Groups(l, [], None)) == Some(Groups(l, r, None))
  {
    hide ParseGroup, Each;
    var s, g := ":" + Join(r), Groups(l, [], None);
    assert s[1..] == Join(r);
    if r != [] {
      TextStarts(r);
      ParseJoin(r, |l|, false, g);
      assert [] + r == r;
    }
  }

  lemma LeadingRun(r: seq<u16>)
    requires |r| < 8
    ensures ParseText("::" + Join(r)) == Some(Groups([], r, None))
  {
    hide ParseGroups, Join;
    var s := "::" + Join(r);
    assert s[2..] == Join(r);
    if r == [] {
      NoText();
    } else {
      TextStarts(r);
      ParseJoin(r, 0, false, NO_GROUPS);
      assert [] + r == r;
    }
  }

  lemma NoText()
    ensures Join([]) == "" && Each([]) == ""
  {
  }

  lemma NoLeadingColon(t: string, rest: string)
    requires t != "" && t[0] != ':'
    ensures ParseText(t + rest) == ParseGroups(t + rest, 0, true, NO_GROUPS)
  {
    hide ParseGroups;
    assert (t + rest)[0] == t[0];
  }

  lemma FirstGroups(l: seq<u16>)
    ensures AddGroups(NO_GROUPS, true, l) == Groups(l, [], None)
    ensures AddGroups(NO_GROUPS, false, l) == Groups([], l, None)
  {
    assert [] + l == l;
  }

  lemma InnerRun(l: seq<u16>, r: seq<u16>)
    requires l != [] && |l| + |r| < 8
    ensures ParseText(Each(l) + ":" + Join(r)) == Some(Groups(l, r, None))
  {
    hide ParseGroups, Join, Each, AddGroups, ParseText;
    TextStarts(l);
    var rest := ":" + Join(r);
    assert Each(l) + ":" + Join(r) == Each(l) + rest;
    NoLeadingColon(Each(l), rest);
    ParseEach(l, rest, 0, true, NO_GROUPS);
    FirstGroups(l);
    AfterColon(l, r);
  }

  lemma TextShape(a: seq<u16>, z: nat, n: nat)
    requires |a| == 8 && IsRun(a, z, n)
    ensures ParseText(V6Text(a, z, n)) == Some(Groups(a[..z], a[z + n..], None))
  {
    hide ParseText, Join, Each;
    NoText();
    if z == 0 {
      LeadingRun(a[z + n..]);
      assert a[..z] == [];
      assert "" + "::" + Join(a[z + n..]) == "::" + Join(a[z + n..]);
    } else {
      InnerRun(a[..z], a[z + n..]);
    }
  }

  /** Reading a formatted address gives the address back, wherever its compressed run is. */
  lemma V6RoundTrip(w: Words, z: int, n: int, stray: u16)
    requires z < 0 || IsRun(ToGroups(w), z, n)
    ensures ParseV6(V6Text(ToGroups(w), z, n), stray) == Some(w)
  {
    hide ToGroups, FromGroups, Assemble, ParseText, V6Text, IsRun;
    var a := ToGroups(w);
    EightGroups(w);
    GroupsRoundTrip(w);
    if z < 0 {
      WholeText(a, z, n);
      AssembleGroups(a, 8, 0, stray);
      assert a[..8] == a && a[8 + 0..] == [];
    } else {
      RunIs(a, z, n);
      TextShape(a, z, n);
      AssembleGroups(a, z, n, stray);
    }
  }

  lemma EightGroups(w: Words)
    ensures |ToGroups(w)| == 8
  {
  }

  lemma RunIs(a: seq<u16>, z: int, n: int)
    requires IsRun(a, z, n)
    ensures 0 <= z && 0 <= n && z + n <= |a| && forall p :: z <= p < z + n ==> a[p] == 0
  {
  }

  lemma WholeText(a: seq<u16>, z: int, n: int)
    requires |a| == 8 && z < 0
    ensures ParseText(V6Text(a, z, n)) == Some(Groups(a, [], None))
  {
    TextStarts(a);
    ParseJoin(a, 0, true, NO_GROUPS);
    hide ParseGroups, Join;
    assert [] + a == a;
  }

  /** The run compressed is the longest, and of several the first. */
  ghost predicate IsBestRun(a: seq<u16>, end: nat, z: int, n: int) {
    && (z < 0 ==> n < 0 && forall p :: 0 <= p < end && p < |a| ==> a[p] != 0)
    && (z >= 0 ==> IsRun(a, z, n) && z + n <= end)
    && (forall y, m :: IsRun(a, y, m) && y + m <= end ==> m < n || (m == n && z <= y))
  }

  method FindZeroes(a: seq<u16>) returns (start: int, max: int)
    requires |a| == 8
    ensures IsBestRun(a, 8, start, max)
  {
    hide IsBestRun;
    var curr, count := 0, 0;
    start, max := -1, -1;
    NoRun(a);
    for p := 0 to 8
      invariant 0 <= count && curr + count == p && curr >= 0
      invariant forall q :: curr <= q < p ==> a[q] == 0
      invariant curr > 0 ==> a[curr - 1] != 0
      invariant IsBestRun(a, p, start, max) && (count > 0 ==> count <= max)
    {
      if a[p] == 0 {
        count := count + 1;
        LongerRun(a, p, curr, count, start, max);
        start := if count > max then curr else start;
        max := if count > max then count else max;
      } else {
        NoLongerRun(a, p, start, max);
        curr := p + 1;
        count := 0;
      }
    }
  }

  lemma NoRun(a: seq<u16>)
    ensures IsBestRun(a, 0, -1, -1)
  {
  }

  lemma NoLongerRun(a: seq<u16>, p: nat, z: int, n: int)
    requires p < |a| && a[p] != 0 && IsBestRun(a, p, z, n)
    ensures IsBestRun(a, p + 1, z, n)
  {
    forall y, m | IsRun(a, y, m) && y + m <= p + 1
      ensures m < n || (m == n && z <= y)
    {
      if y + m == p + 1 {
        assert false;
      }
    }
  }

  /** A run that goes on to position `p` is the best if it is now longer than any before. */
  lemma LongerRun(a: seq<u16>, p: nat, curr: nat, count: nat, z: int, n: int)
    requires p < |a| && a[p] == 0 && curr + count == p + 1 && 0 < count && IsBestRun(a, p, z, n)
    requires forall q :: curr <= q < p ==> a[q] == 0
    requires curr > 0 ==> a[curr - 1] != 0
    requires count > 1 ==> count - 1 <= n
    ensures if count > n then IsBestRun(a, p + 1, curr, count) else IsBestRun(a, p + 1, z, n)
  {
    assert IsRun(a, curr, count);
    forall y, m | IsRun(a, y, m) && y + m == p + 1
      ensures curr <= y
    {
      if y < curr {
        assert false;
      }
    }
  }

  /** What is still to be written from position `p` on. */
  function Remaining(a: seq<u16>, z: int, n: int, p: nat): string
    requires p <= |a| && (z < 0 || IsRun(a, z, n))
  {
    if p <= z then Each(a[p..z]) + (if z == 0 then "::" else ":") + Join(a[z + n..]) else Join(a[p..])
  }

  lemma RemainingStart(a: seq<u16>, z: int, n: int)
    requires z < 0 || IsRun(a, z, n)
    ensures Remaining(a, z, n, 0) == V6Text(a, z, n)
  {
    if 0 <= z {
      assert a[0..z] == a[..z];
    } else {
      assert a[0..] == a;
    }
  }

  lemma RemainingRun(a: seq<u16>, z: int, n: int)
    requires IsRun(a, z, n)
    ensures Remaining(a, z, n, z) == (if z == 0 then "::" else ":") + Remaining(a, z, n, z + n)
  {
    assert a[z..z] == [];
  }

  lemma RemainingGroup(a: seq<u16>, z: int, n: int, p: nat)
    requires p < |a| && p != z && (z < 0 || (IsRun(a, z, n) && (p < z || z + n <= p)))
    ensures Remaining(a, z, n, p) == HexText(a[p]) + (if p + 1 != |a| then ":" else "") + Remaining(a, z, n, p + 1)
  {
    hide HexText;
    if p < z {
      assert a[p..z][1..] == a[p + 1..z];
    } else {
      assert a[p..][1..] == a[p + 1..];
    }
  }

  /** Formats an address: IPv4-mapped ones in dotted decimal, others with their first longest run of
      zero groups compressed. */
  method FormatIPv6Addr(w: Words) returns (text: string, ghost z: int, ghost n: int)
    ensures IsMapped(w) ==> text == V4Text(w[0])
    ensures !IsMapped(w) ==> IsBestRun(ToGroups(w), 8, z, n) && text == V6Text(ToGroups(w), z, n)
  {
    hide HexText, ToGroups, IsBestRun, Remaining, V6Text, Val, V4Text;
    z, n := -1, -1;
    if w[3] == 0 && w[2] == 0 && w[1] == 0xFFFF {
      text := FormatIPv4Addr(w[0]);
      return;
    }
    var a := ToGroups(w);
    EightGroups(w);
    var start, max := FindZeroes(a);
    z, n := start, max;
    BestIsRun(a, start, max);
    RemainingStart(a, start, max);
    text := "";
    var p := 0;
    while p < 8
      invariant 0 <= p <= 8 && (0 <= start ==> p <= start || start + max <= p)
      invariant text + Remaining(a, start, max, p) == V6Text(a, start, max)
      decreases 8 - p
    {
      ghost var written := text;
      if p == start {
        RemainingRun(a, start, max);
        text := text + if p == 0 then "::" else ":";
        p := p + max;
      } else {
        RemainingGroup(a, start, max, p);
        var hex := FormatHexNumber([a[p], 0, 0, 0]);
        GroupVal(a[p]);
        text := text + hex + if p != 7 then ":" else "";
        p := p + 1;
      }
    }
    RemainingEnd(a, start, max);
    assert text + "" == text;
  }

  lemma GroupVal(x: u16)
    ensures Val([x, 0, 0, 0]) == x
  {
  }

  lemma BestIsRun(a: seq<u16>, z: int, n: int)
    requires IsBestRun(a, 8, z, n)
    ensures z < 0 || IsRun(a, z, n)
  {
  }

  lemma RemainingEnd(a: seq<u16>, z: int, n: int)
    requires |a| == 8 && (z < 0 || IsRun(a, z, n))
    ensures Remaining(a, z, n, 8) == ""
  {
    assert a[8..] == [];
  }

  method ReadGroups(str: string) returns (r: Option<Groups>)
    ensures r == ParseText(str)
  {
    hide ParseGroups;
    if str == "" || str[0] != ':' {
      r := ReadFrom(str, true);
      return;
    }
    var s := str[1..];
    if s == "" || s[0] != ':' {
      return None;
    }
    s := s[1..];
    assert s == str[2..];
    if s == "" {
      return Some(NO_GROUPS);
    }
    r := ReadFrom(s, false);
  }

  method ReadFrom(str: string, left0: bool) returns (r: Option<Groups>)
    ensures r == ParseGroups(str, 0, left0, NO_GROUPS)
  {
    hide XRun, Group, ParseV4, AllX;
    var s, left, g := str, left0, NO_GROUPS;
    var k := 0;
    while k < 8
      invariant 0 <= k <= 8 && ParseGroups(str, 0, left0, NO_GROUPS) == ParseGroups(s, k, left, g)
      decreases 8 - k
    {
      if s != "" && s[0] == ':' {
        if !left {
          return None;
        }
        left := false;
        s := s[1..];
        if s == "" {
          return Some(g);
        }
      }
      var tail := ParseIPv4Address(s);
      if |g.left| < 6 && tail.Some? {
        return Some(g.(tail := tail));
      }
      var n, part := ReadHex(s);
      if n == 0 || (n < |s| && s[n] != ':') {
        return None;
      }
      g := AddGroup(g, left, part);
      if n == |s| {
        if !left || k == 7 {
          return Some(g);
        }
        return None;
      }
      s := s[n + 1..];
      k := k + 1;
    }
    r := Some(g);
  }

  /** Reads an address; `stray` is what memory holds behind the array of right groups. */
  method ParseIPv6Address(str: string, stray: u16) returns (addr: Option<Words>)
    ensures addr == ParseV6(str, stray)
  {
    hide ParseText;
    var g := ReadGroups(str);
    if g.None? {
      return None;
    }
    var w := FromGroups(Assemble(g.value, stray));
    if g.value.tail.Some? {
      if w[3] != 0 || w[2] != 0 || w[0] != 0 || (w[1] != 0xFFFF && w[1] != 0) {
        return None;
      }
      w := w[0 := g.value.tail.value];
    }
    addr := Some(w);
  }

  /** How the tokenizer reads an address: dotted decimal first, as an IPv4-mapped value. */
  method ReadAddress(token: string, stray: u16) returns (addr: Option<Words>)
    ensures ParseV4(token).Some? ==> addr == Some(MappedWords(ParseV4(token).value))
    ensures ParseV4(token).None? ==> addr == ParseV6(token, stray)
  {
    hide ParseV6;
    var v4 := ParseIPv4Address(token);
    if v4.Some? {
      return Some(MappedWords(v4.value));
    }
    addr := ParseIPv6Address(token, stray);
  }

  lemma V6TextNoDot(a: seq<u16>, z: int, n: int)
    requires z < 0 || IsRun(a, z, n)
    ensures NoDot(V6Text(a, z, n))
  {
    hide Each, Join;
    TextNoDot(a);
    if z >= 0 {
      TextNoDot(a[..z]);
      TextNoDot(a[z + n..]);
    }
  }

  /** Every 128-bit address, IPv4-mapped or not, survives formatting and reading, whatever memory holds. */
  method FormatThenParse(w: Words, stray: u16) returns (addr: Option<Words>)
    ensures addr == Some(w)
  {
    hide ParseV4, ParseV6, V6Text, IsBestRun, ToGroups;
    ghost var z, n;
    var text;
    text, z, n := FormatIPv6Addr(w);
    addr := ReadAddress(text, stray);
    if IsMapped(w) {
      V4RoundTrip(w[0]);
      assert MappedWords(w[0]) == w;
    } else {
      BestIsRun(ToGroups(w), z, n);
      V6RoundTrip(w, z, n, stray);
      V6TextNoDot(ToGroups(w), z, n);
      NotIPv4(text);
    }
  }
}
