/** Hexadecimal text of 128-bit numbers. */
module Hex {
  import opened Words
  import opened Bits

  predicate IsXDigit(c: char) {
    '0' <= c <= '9' || 'a' <= c <= 'f' || 'A' <= c <= 'F'
  }

  function XDigitVal(c: char): nat
    requires IsXDigit(c)
  {
    if c <= '9' then c as int - '0' as int
    else if c >= 'a' then c as int - 'a' as int + 10
    else c as int - 'A' as int + 10
  }

  function XChar(d: nat): char
    requires d < 16
  {
    if d < 10 then ('0' as int + d) as char else ('a' as int + d - 10) as char
  }

  /** Hexadecimal text without leading zeroes. */
  function HexText(v: nat): string {
    (if v < 16 then "" else HexText(v / 16)) + [XChar(v % 16)]
  }

  predicate AllX(s: string) {
    forall i :: 0 <= i < |s| ==> IsXDigit(s[i])
  }

  function HexVal(s: string): nat
    requires AllX(s)
  {
    if s == "" then 0 else 16 * HexVal(s[..|s| - 1]) + XDigitVal(s[|s| - 1])
  }

  lemma XDigitRoundTrip(d: nat)
    requires d < 16
    ensures IsXDigit(XChar(d)) && XDigitVal(XChar(d)) == d
  {
  }

  lemma HexSnoc(t: string, c: char)
    requires AllX(t) && IsXDigit(c)
    ensures AllX(t + [c]) && HexVal(t + [c]) == 16 * HexVal(t) + XDigitVal(c)
  {
    hide IsXDigit, XDigitVal;
    var s := t + [c];
    assert s[..|s| - 1] == t;
  }

  lemma {:induction false} HexRoundTrip(v: nat)
    ensures HexText(v) != "" && AllX(HexText(v)) && HexVal(HexText(v)) == v
  {
    hide XChar, XDigitVal, IsXDigit, HexVal, AllX;
    XDigitRoundTrip(v % 16);
    if v < 16 {
      EmptyHex();
      HexSnoc("", XChar(v % 16));
    } else {
      HexRoundTrip(v / 16);
      HexSnoc(HexText(v / 16), XChar(v % 16));
    }
  }

  lemma EmptyHex()
    ensures AllX("") && HexVal("") == 0
  {
  }

  lemma HexLength(v: u16)
    ensures |HexText(v)| <= 4
  {
    assert v / 16 / 16 / 16 < 16;
    assert |HexText(v / 16 / 16 / 16)| == 1;
    assert |HexText(v / 16 / 16)| <= 2;
    assert |HexText(v / 16)| <= 3;
  }

  /** How many hexadecimal digits, at most `max`, a string starts with. */
  function XRun(s: string, max: nat): (n: nat)
    ensures n <= |s| && n <= max && AllX(s[..n])
    ensures n < |s| && n < max ==> !IsXDigit(s[n])
  {
    if max == 0 || s == "" || !IsXDigit(s[0]) then 0 else 1 + XRun(s[1..], max - 1)
  }

  lemma {:induction false} XRunOf(t: string, rest: string, max: nat)
    requires AllX(t) && |t| <= max && (rest == "" || !IsXDigit(rest[0]))
    ensures XRun(t + rest, max) == |t|
  {
    var s := t + rest;
    if t == "" {
      assert s == rest;
    } else {
      assert s[0] == t[0] && s[1..] == t[1..] + rest;
      XRunOf(t[1..], rest, max - 1);
    }
  }

  function Group(digits: string): u16
    requires AllX(digits)
  {
    HexVal(digits) % 0x1_0000
  }

  /** The digits written for a number so far: none before the first that is not zero. */
  function Written(v: nat): string {
    if v == 0 then "" else HexText(v)
  }

  lemma OneMoreDigit(v: nat, d: nat)
    requires d < 16
    ensures Written(16 * v + d) == if v == 0 && d == 0 then "" else Written(v) + [XChar(d)]
  {
    var n := 16 * v + d;
    assert n / 16 == v && n % 16 == d;
  }

  function Pow16(k: nat): nat {
    if k == 0 then 1 else 16 * Pow16(k - 1)
  }

  lemma Pow16Word()
    ensures Pow16(8) == B32
  {
    assert Pow16(4) == 0x1_0000;
  }

  /** The number the words from `i` up denote. */
  function Upper(w: Words, i: nat): nat
    requires i <= 4
    decreases 4 - i
  {
    if i == 4 then 0 else Upper(w, i + 1) * B32 + w[i]
  }

  lemma UpperIsVal(w: Words)
    ensures Upper(w, 0) == Val(w)
  {
    assert Upper(w, 3) == w[3];
    assert Upper(w, 2) == w[3] * B32 + w[2];
    assert Upper(w, 1) == (w[3] * B32 + w[2]) * B32 + w[1];
  }

  lemma NextNibble(h: nat, w: u32, k: nat)
    requires 0 < k <= 8
    ensures Pow16(k - 1) > 0 && Pow16(k) > 0
    ensures var d := w / Pow16(k - 1) % 16;
            h * Pow16(9 - k) + w / Pow16(k - 1) == 16 * (h * Pow16(8 - k) + w / Pow16(k)) + d
  {
    PowerPositive(k - 1);
    var p, q := Pow16(k - 1), Pow16(8 - k);
    DivDiv(w, p, 16);
    assert p * 16 == Pow16(k) && Pow16(9 - k) == 16 * q;
    assert h * (16 * q) == 16 * (h * q);
  }

  lemma PowerPositive(k: nat)
    ensures Pow16(k) > 0
  {
  }

  /** Writes one word's eight digits, leading zeroes only behind other digits. */
  method PutHexWord(text: string, ghost h: nat, w: u32) returns (r: string)
    requires text == Written(h)
    ensures r == Written(h * B32 + w)
  {
    hide Written, HexText, XChar, Pow16;
    r := text;
    Pow16Word();
    FirstPower(w);
    var k := 8;
    assert h * 1 + w / B32 == h;
    while k > 0
      invariant 0 <= k <= 8 && Pow16(k) > 0 && r == Written(h * Pow16(8 - k) + w / Pow16(k))
    {
      NextNibble(h, w, k);
      var dig := w / Pow16(k - 1) % 16;
      OneMoreDigit(h * Pow16(8 - k) + w / Pow16(k), dig);
      WrittenEmpty(h * Pow16(8 - k) + w / Pow16(k));
      if dig != 0 || r != "" {
        r := r + [XChar(dig)];
      }
      k := k - 1;
    }
  }

  lemma FirstPower(w: u32)
    ensures Pow16(0) == 1 && w / 1 == w
  {
  }

  lemma WrittenEmpty(v: nat)
    ensures Written(v) == "" <==> v == 0
  {
    HexRoundTrip(v);
  }

  method FormatHexNumber(val: Words) returns (text: string)
    ensures text == HexText(Val(val))
  {
    hide Written, HexText;
    text := "";
    var i := 3;
    UpperIsVal(val);
    WrittenEmpty(0);
    while 1 <= i && val[i] == 0
      invariant 0 <= i <= 3 && Upper(val, i + 1) == 0
    {
      i := i - 1;
    }
    while i >= 0
      invariant -1 <= i <= 3 && text == Written(Upper(val, i + 1))
    {
      text := PutHexWord(text, Upper(val, i + 1), val[i]);
      i := i - 1;
    }
    WrittenWhole(Val(val));
    if text == "" {
      text := "0";
    }
  }

  lemma WrittenWhole(v: nat)
    ensures HexText(v) == if Written(v) == "" then "0" else Written(v)
  {
    WrittenEmpty(v);
  }

  /** Up to four hexadecimal digits and the group they stand for. */
  method ReadHex(s: string) returns (n: nat, part: u16)
    ensures n == XRun(s, 4) && part == Group(s[..n])
  {
    hide XRun, IsXDigit, XDigitVal, HexVal, AllX;
    n := 0;
    var val := 0;
    EmptyHex();
    assert s[..0] == "" && s[0..] == s;
    while n < 4 && n < |s| && IsXDigit(s[n])
      invariant 0 <= n <= 4 && n <= |s| && AllX(s[..n]) && val == HexVal(s[..n])
      invariant XRun(s, 4) == n + XRun(s[n..], 4 - n)
    {
      HexSnoc(s[..n], s[n]);
      assert s[..n + 1] == s[..n] + [s[n]];
      XRunNext(s[n..], 4 - n);
      assert s[n..][1..] == s[n + 1..];
      val := val * 16 + XDigitVal(s[n]);
      n := n + 1;
    }
    XRunStops(s[n..], 4 - n);
    part := val % 0x1_0000;
  }

  lemma XRunNext(s: string, max: nat)
    requires max > 0 && s != "" && IsXDigit(s[0])
    ensures XRun(s, max) == 1 + XRun(s[1..], max - 1)
  {
  }

  lemma XRunStops(s: string, max: nat)
    requires max == 0 || s == "" || !IsXDigit(s[0])
    ensures XRun(s, max) == 0
  {
  }
}
