/** Dotted-decimal IPv4 addresses. */
module Ipv4Text {
  import opened Words
  import opened Filter
  import opened BigNum
  import opened Decimal

  /** Four numbers with dots between them.  A number is judged by its low 32 bits. */
  function ParseOctets(s: string, n: nat): (r: Option<seq<u8>>)
    requires 0 < n
    ensures r.Some? ==> |r.value| == n
    decreases n
  {
    if DigitRun(s) == 0 || Leading(s) >= B128 || Leading(s) % B32 > 0xFF then None
    else
      var part, rest := Leading(s) % B32, s[DigitRun(s)..];
      if n == 1 then if rest == "" then Some([part]) else None
      else if rest == "" || rest[0] != '.' then None
      else
        var more :- ParseOctets(rest[1..], n - 1);
        Some([part] + more)
  }

  function Address(o: seq<u8>): u32
    requires |o| == 4
  {
    var a: nat := o[0];
    var b: nat := o[1];
    var c: nat := o[2];
    var d: nat := o[3];
    a * 0x100_0000 + b * 0x1_0000 + c * 0x100 + d
  }

  function ParseV4(s: string): Option<u32> {
    var o :- ParseOctets(s, 4);
    Some(Address(o))
  }

  /** One octet: a number whose low word is at most 255. */
  method ReadOctet(s: string) returns (r: Option<(nat, u8)>)
    ensures r.None? <==> DigitRun(s) == 0 || Leading(s) >= B128 || Leading(s) % B32 > 0xFF
    ensures r.Some? ==> r.value == (DigitRun(s), Leading(s) % B32)
  {
    hide Leading, DigitRun, Limbs, P;
    var n := AToI(s, 1);
    if n.None? {
      return None;
    }
    OneLimb(n.value.1);
    var part := n.value.1[0];
    r := if part > 0xFF then None else Some((n.value.0, part));
  }

  method ParseIPv4Address(str: string) returns (addr: Option<u32>)
    ensures addr == ParseV4(str)
  {
    hide Leading, DigitRun;
    var s, octets: seq<u8> := str, [];
    JoinedNone(ParseOctets(str, 4));
    for i := 0 to 4
      invariant |octets| == i
      invariant i < 4 ==> ParseOctets(str, 4) == Joined(octets, ParseOctets(s, 4 - i))
      invariant i == 4 ==> ParseOctets(str, 4) == (if s == "" then Some(octets) else None)
    {
      var r := ReadOctet(s);
      if r.None? {
        return None;
      }
      var part := r.value.1;
      s := s[r.value.0..];
      if i != 3 {
        if s == "" || s[0] != '.' {
          return None;
        }
        s := s[1..];
        JoinedNext(octets, part, ParseOctets(s, 3 - i));
      }
      octets := octets + [part];
    }
    if s != "" {
      return None;
    }
    addr := Some(Address(octets));
  }

  lemma JoinedNone(r: Option<seq<u8>>)
    ensures Joined([], r) == r
  {
    if r.Some? {
      assert [] + r.value == r.value;
    }
  }

  function Joined(done: seq<u8>, more: Option<seq<u8>>): Option<seq<u8>> {
    if more.None? then None else Some(done + more.value)
  }

  lemma JoinedNext(done: seq<u8>, part: u8, more: Option<seq<u8>>)
    ensures Joined(done, Joined([part], more)) == Joined(done + [part], more)
  {
    if more.Some? {
      assert done + ([part] + more.value) == done + [part] + more.value;
    }
  }

  lemma OneLimb(s: seq<u32>)
    requires |s| == 1
    ensures Limbs(s) == s[0] && P(1) == B32
  {
    assert s[1..] == [];
  }

  function OctetsText(o: seq<u8>): string {
    if o == [] then ""
    else if |o| == 1 then DecText(o[0])
    else DecText(o[0]) + "." + OctetsText(o[1..])
  }

  function Octets(addr: u32): seq<u8> {
    [addr / 0x100_0000, addr / 0x1_0000 % 0x100, addr / 0x100 % 0x100, addr % 0x100]
  }

  function V4Text(addr: u32): string {
    OctetsText(Octets(addr))
  }

  /** What a formatted number in front of `tail` contributes. */
  lemma FirstOctet(v: nat, tail: string, n: nat)
    requires 0 < n && (tail == "" || tail[0] == '.')
    ensures ParseOctets(DecText(v) + tail, n) ==
            if v >= B128 || v % B32 > 0xFF then None
            else if n == 1 then if tail == "" then Some([v % B32]) else None
            else if tail == "" then None
            else Joined([v % B32], ParseOctets(tail[1..], n - 1))
  {
    hide DecText, DigitRun, Leading;
    var s := DecText(v) + tail;
    FormatThenRead(v, tail);
    DecRoundTrip(v);
    assert s[|DecText(v)|..] == tail;
  }

  lemma {:induction false} OctetsRoundTrip(o: seq<u8>)
    requires o != []
    ensures ParseOctets(OctetsText(o), |o|) == Some(o)
  {
    hide DecText, ParseOctets;
    var v: nat := o[0];
    if |o| == 1 {
      FirstOctet(v, "", 1);
      assert DecText(v) + "" == OctetsText(o);
      assert [o[0]] == o;
    } else {
      var tail := "." + OctetsText(o[1..]);
      assert OctetsText(o) == DecText(v) + tail;
      assert tail[1..] == OctetsText(o[1..]);
      FirstOctet(v, tail, |o|);
      OctetsRoundTrip(o[1..]);
      assert [o[0]] + o[1..] == o;
    }
  }

  lemma AddressOfOctets(addr: u32)
    ensures Address(Octets(addr)) == addr
  {
    var a, b, c := addr / 0x100_0000, addr / 0x1_0000, addr / 0x100;
    assert b == a * 0x100 + b % 0x100;
    assert c == b * 0x100 + c % 0x100;
    assert addr == c * 0x100 + addr % 0x100;
  }

  /** Reading a formatted address gives the address back. */
  lemma V4RoundTrip(addr: u32)
    ensures ParseV4(V4Text(addr)) == Some(addr)
  {
    hide ParseOctets, OctetsText, Octets, Address;
    AddressOfOctets(addr);
    FourOctets(addr);
    OctetsRoundTrip(Octets(addr));
  }

  lemma FourOctets(addr: u32)
    ensures |Octets(addr)| == 4
  {
  }

  /** A number that only exceeds a byte above bit 31 is taken for an octet all the same: it is wrong
      for exactly the numbers of 2^32 and more that leave at most 255 modulo 2^32. */
  lemma OctetWraps(n: nat)
    ensures ParseV4(DecText(n) + ".0.0.0").Some? <==> n < B128 && n % B32 <= 0xFF
    ensures B32 <= n < B128 && n % B32 <= 0xFF ==> ParseV4(DecText(n) + ".0.0.0") == Some(n % B32 * 0x100_0000)
  {
    hide DecText, ParseOctets;
    FirstOctet(n, ".0.0.0", 4);
    ZeroTail();
  }

  lemma ZeroTail()
    ensures ParseOctets(".0.0.0"[1..], 3) == Some([0, 0, 0])
  {
    ZeroText();
    OctetsRoundTrip([0, 0, 0]);
    assert OctetsText([0]) == "0";
    assert [0, 0, 0][1..] == [0, 0] && [0, 0][1..] == [0];
    assert OctetsText([0, 0]) == "0.0";
    assert OctetsText([0, 0, 0]) == "0.0.0";
    assert ".0.0.0"[1..] == "0.0.0";
  }

  lemma RadixValue()
    ensures Ten(0) == 1 && Ten(9) == 1000000000 && Ten(10) > B32
  {
    assert Ten(5) == 100000;
  }

  /** `prefix` followed by the `k` digits of `val`. */
  function Assembled(prefix: nat, k: nat, val: nat): nat {
    prefix * Ten(k) + val
  }

  function Quotient(val: nat, r: nat): nat { if r == 0 then 0 else val / r }

  function Remainder(val: nat, r: nat): nat { if r == 0 then 0 else val % r }

  lemma NextDigit(prefix: nat, val: nat, k: nat)
    requires 0 < k && val < Ten(k)
    ensures var r := Ten(k - 1);
            && 0 < r && Quotient(val, r) < 10 && Remainder(val, r) < r
            && Assembled(prefix, k, val) == Assembled(prefix * 10 + Quotient(val, r), k - 1, Remainder(val, r))
            && r / 10 == if k == 1 then 0 else Ten(k - 2)
    ensures k > 1 ==> Ten(k - 2) > 0
  {
    TenPositive(k - 1);
    if k > 1 {
      TenPositive(k - 2);
    }
    var r := Ten(k - 1);
    var d := val / r;
    assert val == d * r + val % r;
    if d >= 10 {
      MulLe(r, 10, d);
      assert false;
    }
    assert prefix * (10 * r) == prefix * 10 * r;
    assert (prefix * 10 + d) * r == prefix * 10 * r + d * r;
  }

  lemma {:induction false} TenPositive(k: nat)
    ensures Ten(k) > 0
  {
    if k > 0 {
      TenPositive(k - 1);
    }
  }

  lemma AppendDigit(p: nat, d: nat)
    requires d < 10
    ensures DecText(p * 10 + d) == (if p == 0 then "" else DecText(p)) + [DigitChar(d)]
  {
    assert (p * 10 + d) / 10 == p && (p * 10 + d) % 10 == d;
  }

  /** `k` digits are still to come; `prefix` is the number printed so far. */
  ghost predicate Printing(val0: nat, val: nat, r: nat, k: nat, prefix: nat, zeroes: bool, text: string) {
    && (k == 0 ==> r == 0 && zeroes) && (k > 0 ==> r == Ten(k - 1) > 0)
    && val0 == Assembled(prefix, k, val) && val < Ten(k)
    && text == (if zeroes then DecText(prefix) else "")
    && (!zeroes ==> prefix == 0) && (zeroes && prefix == 0 ==> k == 0)
  }

  lemma PrintStep(val0: nat, val: nat, r: nat, k: nat, prefix: nat, zeroes: bool, text: string)
    requires r > 0 && Printing(val0, val, r, k, prefix, zeroes, text)
    ensures k > 0 && Quotient(val, r) < 10
    ensures var dig, prefix', val' := Quotient(val, r), prefix * 10 + Quotient(val, r), Remainder(val, r);
            if dig == 0 && !zeroes && r / 10 != 0 then Printing(val0, val', r / 10, k - 1, prefix', zeroes, text)
            else Printing(val0, val', r / 10, k - 1, prefix', true, text + [DigitChar(dig)])
  {
    hide Ten, DecText, Assembled, Quotient, Remainder;
    NextDigit(prefix, val, k);
    AppendDigit(prefix, Quotient(val, r));
  }

  lemma PrintDone(val0: nat, val: nat, k: nat, prefix: nat, zeroes: bool, text: string)
    requires Printing(val0, val, 0, k, prefix, zeroes, text)
    ensures text == DecText(val0)
  {
  }

  lemma PrintStart(val0: u32)
    ensures Printing(val0, val0, 1000000000, 10, 0, false, "")
  {
    RadixValue();
  }

  /** Decimal text of a 32-bit number, the highest digit first. */
  method FormatDecNumber32(val0: u32) returns (text: string)
    ensures text == DecText(val0)
  {
    hide Printing, DecText, Quotient, Remainder;
    var val: nat := val0;
    var r: nat := 1000000000;
    var zeroes := false;
    text := "";
    ghost var k: nat := 10;
    ghost var prefix: nat := 0;
    PrintStart(val0);
    while r != 0
      invariant Printing(val0, val, r, k, prefix, zeroes, text)
      decreases k
    {
      PrintStep(val0, val, r, k, prefix, zeroes, text);
      var dig := Quotient(val, r);
      val := Remainder(val, r);
      r := r / 10;
      prefix := prefix * 10 + dig;
      k := k - 1;
      if dig == 0 && !zeroes && r != 0 {
        continue;
      }
      text := text + [DigitChar(dig)];
      zeroes := true;
    }
    PrintDone(val0, val, k, prefix, zeroes, text);
  }

  method FormatIPv4Addr(addr: u32) returns (text: string)
    ensures text == V4Text(addr)
  {
    hide DecText;
    var o := Octets(addr);
    var a := FormatDecNumber32(o[0]);
    var b := FormatDecNumber32(o[1]);
    var c := FormatDecNumber32(o[2]);
    var d := FormatDecNumber32(o[3]);
    text := a + "." + b + "." + c + "." + d;
    TextOfFour(o);
  }

  lemma TextOfFour(o: seq<u8>)
    requires |o| == 4
    ensures OctetsText(o) == DecText(o[0]) + "." + DecText(o[1]) + "." + DecText(o[2]) + "." + DecText(o[3])
  {
    hide DecText;
    assert o[1..][1..] == o[2..] && o[2..][1..] == o[3..];
    assert OctetsText(o[3..]) == DecText(o[3]);
    assert OctetsText(o[2..]) == DecText(o[2]) + "." + DecText(o[3]);
  }
}
