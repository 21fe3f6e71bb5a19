/** Exactly which texts the IPv6 parser accepts, and as which groups. */
module Ipv6Grammar {
  import opened Words
  import opened Filter
  import opened Ipv4Text
  import opened Hex
  import opened Ipv6Text

  /** How a text ends: with its last group, behind the colon of an eighth group in any text at all, or
      with an IPv4 address. */
  datatype End = Stop | Anything(text: string) | Dotted(text: string)

  /** Groups as they are written, a gap `::` or none, groups behind it, and the end. */
  datatype Tree = Tree(left: seq<string>, gap: bool, right: seq<string>, end: End)

  predicate IsGroup(t: string) {
    1 <= |t| <= 4 && AllX(t)
  }

  predicate AllGroups(parts: seq<string>) {
    forall i :: 0 <= i < |parts| ==> IsGroup(parts[i])
  }

  function Values(parts: seq<string>): (a: seq<u16>)
    requires AllGroups(parts)
    ensures |a| == |parts|
  {
    if parts == [] then [] else [Group(parts[0])] + Values(parts[1..])
  }

  function WithColons(parts: seq<string>): string {
    if parts == [] then "" else parts[0] + ":" + WithColons(parts[1..])
  }

  function Joined(parts: seq<string>): string {
    if parts == [] then "" else if |parts| == 1 then parts[0] else parts[0] + ":" + Joined(parts[1..])
  }

  function EndText(parts: seq<string>, end: End): string {
    match end
    case Stop => Joined(parts)
    case Anything(text) => WithColons(parts) + text
    case Dotted(text) => WithColons(parts) + text
  }

  function TextOf(t: Tree): string {
    if !t.gap then EndText(t.left, t.end)
    else (if t.left == [] then "::" else WithColons(t.left) + ":") + EndText(t.right, t.end)
  }

  /** What may stand where. */
  predicate WellFormed(t: Tree) {
    var n := |t.left| + |t.right|;
    && AllGroups(t.left) && AllGroups(t.right)
    && (!t.gap ==> t.right == [])
    && match t.end
       case Stop => if t.gap then |t.left| <= 7 && n <= 8 else n == 8
       case Anything(_) => n == 8 && (t.gap ==> t.right != [])
       case Dotted(text) => n <= 7 && |t.left| <= 5 && ParseV4(text).Some?
  }

  function GroupsOf(t: Tree): Groups
    requires WellFormed(t)
  {
    Groups(Values(t.left), Values(t.right), if t.end.Dotted? then ParseV4(t.end.text) else None)
  }

  /** One written group and its colon. */
  lemma ReadOne(t: string, rest: string, k: nat, left: bool, g: Groups)
    requires k < 8 && IsGroup(t)
    ensures ParseGroups(t + ":" + rest, k, left, g) == ParseGroups(rest, k + 1, left, AddGroup(g, left, Group(t)))
  {
    hide ParseOctets, XRun, Group, IsXDigit;
    var s := t + ":" + rest;
    assert s == t + (":" + rest);
    ColonEnds(rest);
    XRunOf(t, ":" + rest, 4);
    assert s[|t|] == ':';
    ColonNotIPv4(s, 4);
    assert s[..|t|] == t && s[|t| + 1..] == rest;
    NoColonInside(t);
    assert s[0] == t[0];
  }

  lemma NoColonInside(t: string)
    requires IsGroup(t)
    ensures t[0] != ':' && NoDot(t)
  {
  }

  lemma ReadLast(t: string, k: nat, left: bool, g: Groups)
    requires k < 8 && IsGroup(t) && (!left || k == 7)
    ensures ParseGroups(t, k, left, g) == Some(AddGroup(g, left, Group(t)))
  {
    hide ParseV4, XRun, Group, IsXDigit;
    NoColonInside(t);
    assert t == t + "";
    XRunOf(t, "", 4);
    NotIPv4(t);
    assert t[..|t|] == t;
  }

  lemma {:induction false} ReadEach(parts: seq<string>, rest: string, k: nat, left: bool, g: Groups)
    requires AllGroups(parts) && k + |parts| <= 8
    ensures ParseGroups(WithColons(parts) + rest, k, left, g)
         == ParseGroups(rest, k + |parts|, left, AddGroups(g, left, Values(parts)))
  {
    hide ParseGroups, Group;
    if parts == [] {
      assert WithColons(parts) + rest == rest;
      NoneAdded(g, left);
    } else {
      var more := WithColons(parts[1..]) + rest;
      assert WithColons(parts) + rest == parts[0] + ":" + more;
      ReadOne(parts[0], more, k, left, g);
      ReadEach(parts[1..], rest, k + 1, left, AddGroup(g, left, Group(parts[0])));
      OneThenMore(g, left, Group(parts[0]), Values(parts[1..]));
    }
  }

  lemma NoneAdded(g: Groups, left: bool)
    ensures AddGroups(g, left, []) == g
  {
    assert g.left + [] == g.left && g.right + [] == g.right;
  }

  lemma OneThenMore(g: Groups, left: bool, x: u16, more: seq<u16>)
    ensures AddGroups(AddGroup(g, left, x), left, more) == AddGroups(g, left, [x] + more)
  {
    assert g.left + [x] + more == g.left + ([x] + more);
    assert g.right + [x] + more == g.right + ([x] + more);
  }

  lemma {:induction false} ReadJoined(parts: seq<string>, k: nat, left: bool, g: Groups)
    requires AllGroups(parts) && parts != [] && k + |parts| <= 8 && (!left || k + |parts| == 8)
    ensures ParseGroups(Joined(parts), k, left, g) == Some(AddGroups(g, left, Values(parts)))
  {
    hide ParseGroups, Group;
    if |parts| == 1 {
      ReadLast(parts[0], k, left, g);
      assert Values(parts[1..]) == [] && Values(parts) == [Group(parts[0])];
    } else {
      ReadOne(parts[0], Joined(parts[1..]), k, left, g);
      ReadJoined(parts[1..], k + 1, left, AddGroup(g, left, Group(parts[0])));
      OneThenMore(g, left, Group(parts[0]), Values(parts[1..]));
    }
  }

  /** From a state of the parser to the end of the text. */
  lemma ReadEnd(parts: seq<string>, end: End, k: nat, left: bool, g: Groups)
    requires AllGroups(parts) && k + |parts| <= 8 && g.tail.None?
    requires match end
             case Stop => parts != [] && (!left || k + |parts| == 8)
             case Anything(_) => k + |parts| == 8
             case Dotted(text) =>
               k + |parts| <= 7 && |g.left| + (if left then |parts| else 0) <= 5 && ParseV4(text).Some?
    ensures ParseGroups(EndText(parts, end), k, left, g)
         == Some(AddGroups(g, left, Values(parts)).(tail := if end.Dotted? then ParseV4(end.text) else None))
  {
    hide ParseGroups, Values, ParseV4;
    match end
    case Stop =>
      ReadJoined(parts, k, left, g);
    case Anything(text) =>
      ReadEach(parts, text, k, left, g);
      AnyText(text, left, AddGroups(g, left, Values(parts)));
    case Dotted(text) =>
      ReadEach(parts, text, k, left, g);
      DottedEnd(text, k + |parts|, left, AddGroups(g, left, Values(parts)));
  }

  lemma AnyText(s: string, left: bool, g: Groups)
    ensures ParseGroups(s, 8, left, g) == Some(g)
  {
  }

  lemma DottedEnd(s: string, k: nat, left: bool, g: Groups)
    requires k < 8 && |g.left| < 6 && ParseV4(s).Some?
    ensures ParseGroups(s, k, left, g) == Some(g.(tail := ParseV4(s)))
  {
    hide XRun, ParseOctets;
    if ':' in s {
      ColonNotIPv4(s, 4);
    }
  }

  /** Every text of the grammar is read as its groups. */
  lemma Accepted(t: Tree)
    requires WellFormed(t)
    ensures ParseText(TextOf(t)) == Some(GroupsOf(t))
  {
    hide ParseGroups, Values, ParseV4, EndText, AllGroups;
    var values := Values(t.left);
    FirstGroups(values);
    if !t.gap {
      NoneAdded(NO_GROUPS, false);
      ReadEnd(t.left, t.end, 0, true, NO_GROUPS);
      PlainStart(t);
      NoValues();
    } else {
      GapRead(t);
    }
  }

  lemma NoValues()
    ensures AllGroups([]) && Values([]) == []
  {
  }

  lemma PlainStart(t: Tree)
    requires WellFormed(t) && !t.gap
    ensures ParseText(TextOf(t)) == ParseGroups(TextOf(t), 0, true, NO_GROUPS)
  {
    hide ParseGroups, ParseOctets;
    var s := TextOf(t);
    if t.left == [] {
      assert WithColons(t.left) + t.end.text == t.end.text;
      if ':' in s {
        ColonNotIPv4(s, 4);
      }
    } else {
      NoColonInside(t.left[0]);
      assert s[0] == t.left[0][0];
    }
  }

  lemma GapRead(t: Tree)
    requires WellFormed(t) && t.gap
    ensures ParseText(TextOf(t)) == Some(GroupsOf(t))
  {
    hide ParseGroups, Values, ParseV4;
    var s, rest := TextOf(t), EndText(t.right, t.end);
    var g := Groups(Values(t.left), [], None);
    NoValues();
    BehindGap(t, g);
    if t.left == [] {
      assert s == "::" + rest && s[2..] == rest;
    } else {
      ReadEach(t.left, ":" + rest, 0, true, NO_GROUPS);
      FirstGroups(Values(t.left));
      assert s == WithColons(t.left) + (":" + rest);
      NoColonInside(t.left[0]);
      assert s[0] == t.left[0][0];
      InnerGap(rest, |t.left|, g);
    }
  }

  /** What follows the gap, and that it does not start with a third colon. */
  lemma BehindGap(t: Tree, g: Groups)
    requires WellFormed(t) && t.gap && g == Groups(Values(t.left), [], None)
    ensures var rest := EndText(t.right, t.end);
            && (rest == "" ==> GroupsOf(t) == g)
            && (rest != "" ==> rest[0] != ':' && |t.left| < 8)
            && (rest != "" ==> ParseGroups(rest, |t.left|, false, g) == Some(GroupsOf(t)))
  {
    hide ParseGroups, Values, ParseV4;
    var rest := EndText(t.right, t.end);
    NoValues();
    if t.right == [] && t.end.Stop? {
    } else {
      ReadEnd(t.right, t.end, |t.left|, false, g);
      assert [] + Values(t.right) == Values(t.right);
      RestStarts(t);
    }
  }

  lemma RestStarts(t: Tree)
    requires WellFormed(t) && t.gap && !(t.right == [] && t.end.Stop?)
    ensures var rest := EndText(t.right, t.end); rest != "" && rest[0] != ':'
  {
    hide ParseOctets;
    var rest := EndText(t.right, t.end);
    if t.right == [] {
      assert WithColons(t.right) + t.end.text == t.end.text;
      NotEmptyV4(t.end.text);
    } else {
      NoColonInside(t.right[0]);
      assert rest[0] == t.right[0][0];
    }
  }

  lemma NotEmptyV4(s: string)
    requires ParseV4(s).Some?
    ensures s != "" && s[0] != ':'
  {
    if ':' in s {
      ColonNotIPv4(s, 4);
    }
  }

  lemma InnerGap(rest: string, k: nat, g: Groups)
    requires k < 8 && (rest != "" ==> rest[0] != ':')
    ensures ParseGroups(":" + rest, k, true, g) == if rest == "" then Some(g) else ParseGroups(rest, k, false, g)
  {
    hide ParseGroup;
    var s := ":" + rest;
    assert s[1..] == rest;
  }

  /** The text still to be read in a state of the parser, of which `t` derives the rest. */
  function RestText(t: Tree, left: bool): string {
    if !left then EndText(t.right, t.end)
    else if t.gap then WithColons(t.left) + ":" + EndText(t.right, t.end)
    else EndText(t.left, t.end)
  }

  /** `t` derives `s` in the state with `k` groups read, `g` of them, and leads to `r`. */
  predicate Derives(t: Tree, s: string, k: nat, left: bool, g: Groups, r: Groups) {
    var n := k + |t.left| + |t.right|;
    && AllGroups(t.left) && AllGroups(t.right) && RestText(t, left) == s
    && (left && !t.gap ==> t.right == []) && (!left ==> t.left == [] && !t.gap)
    && r.left == g.left + Values(t.left) && r.right == g.right + Values(t.right)
    && r.tail == (if t.end.Dotted? then ParseV4(t.end.text) else None)
    && match t.end
       case Stop =>
         if t.gap then n <= 8 && k + |t.left| <= 7
         else if left then n == 8 && t.left != []
         else n <= 8 && t.right != []
       case Anything(_) => n == 8 && (t.gap ==> t.right != [])
       case Dotted(text) => n <= 7 && |r.left| <= 5 && ParseV4(text).Some?
  }

  /** Whatever the parser accepts is derived by the grammar. */
  lemma {:induction false} Derive(s: string, k: nat, left: bool, g: Groups) returns (t: Tree)
    requires k <= 8 && ParseGroups(s, k, left, g).Some? && g.tail.None?
    ensures Derives(t, s, k, left, g, ParseGroups(s, k, left, g).value)
    decreases 8 - k, 1
  {
    hide ParseGroup, ParseV4;
    NoValues();
    if k == 8 {
      t := Tree([], false, [], Anything(s));
      NothingMore(t, s, k, left, g);
    } else if s != "" && s[0] == ':' {
      if s[1..] == "" {
        t := Tree([], true, [], Stop);
        assert s == ":" && "" + ":" + "" == ":";
        assert g.left + [] == g.left && g.right + [] == g.right;
      } else {
        var rest := DeriveGroup(s[1..], k, false, g);
        t := rest.(gap := true);
        assert s == ":" + s[1..] && WithColons([]) + ":" + s[1..] == s;
      }
    } else {
      t := DeriveGroup(s, k, left, g);
    }
  }

  lemma NothingMore(t: Tree, s: string, k: nat, left: bool, g: Groups)
    requires k == 8 && t == Tree([], false, [], Anything(s)) && g.tail.None?
    ensures Derives(t, s, k, left, g, g)
  {
    NoValues();
    assert WithColons([]) + s == s;
    assert g.left + [] == g.left && g.right + [] == g.right;
  }

  lemma {:induction false} DeriveGroup(s: string, k: nat, left: bool, g: Groups) returns (t: Tree)
    requires k < 8 && ParseGroup(s, k, left, g).Some? && g.tail.None?
    ensures Derives(t, s, k, left, g, ParseGroup(s, k, left, g).value)
    ensures !left ==> !(t.right == [] && t.end.Stop?) && (t.right == [] ==> t.end.Dotted?)
    decreases 8 - k, 0
  {
    hide ParseGroups, ParseV4, Derives;
    if |g.left| < 6 && ParseV4(s).Some? {
      t := Tree([], false, [], Dotted(s));
      DottedOnly(t, s, k, left, g);
    } else {
      var n := XRun(s, 4);
      var digits := s[..n];
      if n == |s| {
        assert digits == s;
        t := if left then Tree([digits], false, [], Stop) else Tree([], false, [digits], Stop);
        LastOnly(t, s, k, left, g);
      } else {
        var rest := Derive(s[n + 1..], k + 1, left, AddGroup(g, left, Group(digits)));
        t := if left then rest.(left := [digits] + rest.left) else rest.(right := [digits] + rest.right);
        assert s == digits + ":" + s[n + 1..];
        OneInFront(rest, t, digits, s[n + 1..], k, left, g, ParseGroup(s, k, left, g).value);
      }
    }
  }

  lemma DottedOnly(t: Tree, s: string, k: nat, left: bool, g: Groups)
    requires k <= 7 && t == Tree([], false, [], Dotted(s)) && ParseV4(s).Some? && |g.left| <= 5
    ensures Derives(t, s, k, left, g, g.(tail := ParseV4(s)))
  {
    hide ParseV4;
    NoValues();
    assert WithColons([]) + s == s;
    assert g.left + [] == g.left && g.right + [] == g.right;
  }

  lemma LastOnly(t: Tree, s: string, k: nat, left: bool, g: Groups)
    requires k < 8 && IsGroup(s) && (!left || k == 7) && g.tail.None?
    requires t == if left then Tree([s], false, [], Stop) else Tree([], false, [s], Stop)
    ensures Derives(t, s, k, left, g, AddGroup(g, left, Group(s)))
  {
    hide Group;
    NoValues();
    assert [s][1..] == [] && Values([s]) == [Group(s)];
    assert g.left + [] == g.left && g.right + [] == g.right;
  }

  lemma OneInFront(rest: Tree, t: Tree, digits: string, more: string, k: nat, left: bool, g: Groups, r: Groups)
    requires k < 8 && IsGroup(digits) && Derives(rest, more, k + 1, left, AddGroup(g, left, Group(digits)), r)
    requires t == if left then rest.(left := [digits] + rest.left) else rest.(right := [digits] + rest.right)
    requires g.tail.None?
    ensures Derives(t, digits + ":" + more, k, left, g, r)
  {
    hide Group, ParseV4, EndText;
    var parts := [digits] + if left then rest.left else rest.right;
    assert parts[1..] == if left then rest.left else rest.right;
    OneMoreValue(digits, parts[1..]);
    assert AddGroup(g, left, Group(digits)).left + Values(rest.left) == g.left + Values(t.left);
    assert AddGroup(g, left, Group(digits)).right + Values(rest.right) == g.right + Values(t.right);
    if left && t.gap {
      GapInFront(rest, digits);
    } else {
      FrontText(parts, rest.end);
    }
  }

  lemma OneMoreValue(digits: string, parts: seq<string>)
    requires IsGroup(digits) && AllGroups(parts)
    ensures AllGroups([digits] + parts) && Values([digits] + parts) == [Group(digits)] + Values(parts)
  {
    assert ([digits] + parts)[1..] == parts;
  }

  lemma GapInFront(rest: Tree, digits: string)
    ensures WithColons([digits] + rest.left) + ":" + EndText(rest.right, rest.end)
         == digits + ":" + (WithColons(rest.left) + ":" + EndText(rest.right, rest.end))
  {
    hide EndText;
    var parts := [digits] + rest.left;
    assert parts[1..] == rest.left;
    assert WithColons(parts) == digits + ":" + WithColons(rest.left);
  }

  lemma FrontText(parts: seq<string>, end: End)
    requires parts != [] && (end.Stop? ==> |parts| > 1)
    ensures EndText(parts, end) == parts[0] + ":" + EndText(parts[1..], end)
  {
  }

  /** A text is read as `g` if and only if the grammar derives it with these groups. */
  lemma AcceptedIff(s: string, g: Groups)
    ensures ParseText(s) == Some(g) <==> exists t: Tree :: WellFormed(t) && TextOf(t) == s && GroupsOf(t) == g
  {
    hide ParseText, TextOf, WellFormed, GroupsOf;
    if ParseText(s) == Some(g) {
      var t := DeriveText(s);
      assert WellFormed(t) && TextOf(t) == s && GroupsOf(t) == g;
    }
    if t: Tree :| WellFormed(t) && TextOf(t) == s && GroupsOf(t) == g {
      Accepted(t);
    }
  }

  lemma DeriveText(s: string) returns (t: Tree)
    requires ParseText(s).Some?
    ensures WellFormed(t) && TextOf(t) == s && GroupsOf(t) == ParseText(s).value
  {
    hide ParseGroups, ParseV4, Derives, WellFormed, GroupsOf, TextOf;
    if s != "" && s[0] == ':' {
      if s[2..] == "" {
        t := OnlyGap(s);
      } else {
        t := Derive(s[2..], 0, false, NO_GROUPS);
        t := LeadingGap(t, s, ParseText(s).value);
      }
    } else {
      t := Derive(s, 0, true, NO_GROUPS);
      FromStart(t, s, ParseText(s).value);
    }
  }

  lemma OnlyGap(s: string) returns (t: Tree)
    requires |s| == 2 && s[0] == s[1] == ':'
    ensures WellFormed(t) && TextOf(t) == s && GroupsOf(t) == NO_GROUPS
  {
    t := Tree([], true, [], Stop);
    assert s == "::" && "::" + Joined([]) == s;
  }

  lemma LeadingGap(rest: Tree, s: string, r: Groups) returns (t: Tree)
    requires 2 <= |s| && s[0] == s[1] == ':' && Derives(rest, s[2..], 0, false, NO_GROUPS, r)
    ensures WellFormed(t) && TextOf(t) == s && GroupsOf(t) == r
  {
    hide ParseV4, EndText, Values, AllGroups;
    t := rest.(gap := true);
    assert s == "::" + s[2..];
    StartsFresh(t.left, t.right);
  }

  lemma FromStart(t: Tree, s: string, r: Groups)
    requires (s == "" || s[0] != ':') && Derives(t, s, 0, true, NO_GROUPS, r)
    ensures WellFormed(t) && TextOf(t) == s && GroupsOf(t) == r
  {
    hide ParseV4, EndText, Values, AllGroups;
    StartsFresh(t.left, t.right);
    EmptyLeft(t);
  }

  /** A gap behind no groups starts a text with a colon. */
  lemma EmptyLeft(t: Tree)
    ensures t.gap && t.left == [] ==> RestText(t, true) != "" && RestText(t, true)[0] == ':'
  {
    hide EndText;
    assert WithColons([]) + ":" == ":";
  }

  lemma StartsFresh(left: seq<string>, right: seq<string>)
    requires AllGroups(left) && AllGroups(right)
    ensures NO_GROUPS.left + Values(left) == Values(left) && NO_GROUPS.right + Values(right) == Values(right)
  {
    assert [] + Values(left) == Values(left) && [] + Values(right) == Values(right);
  }
}
