/** Decimal text of 128-bit numbers. */
module Decimal {
  import opened Words
  import opened Filter
  import opened Bits
  import opened BigNum

  predicate IsDigit(c: char) { '0' <= c <= '9' }

  function DigitChar(d: nat): char
    requires d < 10
  {
    ('0' as int + d) as char
  }

  predicate AllDigits(s: string) {
    forall i :: 0 <= i < |s| ==> IsDigit(s[i])
  }

  /** The number a string of digits denotes. */
  function DecVal(s: string): nat
    requires AllDigits(s)
  {
    if s == "" then 0 else 10 * DecVal(s[..|s| - 1]) + (s[|s| - 1] as int - '0' as int)
  }

  /** The decimal text of a number, without leading zeroes. */
  function DecText(n: nat): string {
    (if n < 10 then "" else DecText(n / 10)) + [DigitChar(n % 10)]
  }

  lemma {:induction false} DecRoundTrip(n: nat)
    ensures DecText(n) != "" && AllDigits(DecText(n)) && DecVal(DecText(n)) == n
  {
    var s := DecText(n);
    assert s[|s| - 1] == DigitChar(n % 10);
    if n >= 10 {
      DecRoundTrip(n / 10);
      assert s[..|s| - 1] == DecText(n / 10);
    } else {
      assert s[..0] == "";
    }
  }

  /** Reading a formatted number gives the number back, whatever non-digit follows it. */
  lemma FormatThenRead(n: nat, rest: string)
    requires rest == "" || !IsDigit(rest[0])
    ensures DigitRun(DecText(n) + rest) == |DecText(n)| && Leading(DecText(n) + rest) == n
  {
    DecRoundTrip(n);
    var s, k := DecText(n) + rest, |DecText(n)|;
    assert s[..k] == DecText(n);
    assert rest != "" ==> s[k] == rest[0];
    AtRunEnd(s, k);
  }

  /** The length of the digits a string starts with. */
  function DigitRun(s: string): (n: nat)
    ensures n <= |s| && AllDigits(s[..n])
    ensures n < |s| ==> !IsDigit(s[n])
  {
    if s == "" || !IsDigit(s[0]) then 0 else 1 + DigitRun(s[1..])
  }

  function Leading(s: string): nat {
    DecVal(s[..DigitRun(s)])
  }

  lemma RunIsMaximal(s: string, i: nat)
    requires i < |s| && AllDigits(s[..i])
    ensures IsDigit(s[i]) <==> i < DigitRun(s)
    ensures i <= DigitRun(s)
  {
    var n := DigitRun(s);
    if n < i {
      assert false;
    }
    if i < n {
      assert s[i] == s[..n][i];
    }
  }

  lemma DecSnoc(s: string, i: nat)
    requires i < |s| && AllDigits(s[..i]) && IsDigit(s[i])
    ensures AllDigits(s[..i + 1])
    ensures DecVal(s[..i + 1]) == 10 * DecVal(s[..i]) + (s[i] as int - '0' as int)
  {
    var t := s[..i + 1];
    assert forall k :: 0 <= k < i ==> t[k] == s[..i][k];
    assert t[..i] == s[..i];
  }

  lemma {:induction false} DecMonotonic(s: string, i: nat, j: nat)
    requires i <= j <= |s| && AllDigits(s[..j])
    ensures AllDigits(s[..i]) && DecVal(s[..i]) <= DecVal(s[..j])
  {
    assert forall k :: 0 <= k < i ==> s[..i][k] == s[..j][k];
    if i < j {
      var t := s[..j];
      assert t[..j - 1] == s[..j - 1];
      assert forall k :: 0 <= k < j - 1 ==> s[..j - 1][k] == t[k];
      DecMonotonic(s, i, j - 1);
    }
  }

  /** Ten times the number and a digit, unless that needs more than 128 bits. */
  method TimesTenPlus(n: array<u32>, digit: nat) returns (ok: bool)
    requires n.Length == 4 && digit < 10 && Limbs(n[..]) < B128
    modifies n
    ensures ok <==> 10 * old(Limbs(n[..])) + digit < B128
    ensures ok ==> Limbs(n[..]) == 10 * old(Limbs(n[..])) + digit
  {
    hide Limbs;
    ok := Mul128(n, 10);
    if ok {
      ok := Add128(n, digit);
    }
  }

  /** Reads the digits a string starts with.  It fails exactly when there are none or they do
      not fit in 128 bits; otherwise it hands out the low `size` words, whatever is above them. */
  method AToI(str: string, size: nat) returns (result: Option<(nat, seq<u32>)>)
    requires size <= 4
    ensures result.None? <==> DigitRun(str) == 0 || Leading(str) >= B128
    ensures result.Some? ==>
              && result.value.0 == DigitRun(str) && |result.value.1| == size
              && Limbs(result.value.1) == Leading(str) % P(size)
  {
    hide Limbs, P, DigitRun, DecVal, Leading, AllDigits, IsDigit;
    var n := new u32[4](_ => 0);
    BigZero(4, n[..]);
    var i := 0;
    NoDigits(str);
    while i < |str| && IsDigit(str[i])
      invariant 0 <= i <= |str| && AllDigits(str[..i])
      invariant Limbs(n[..]) == DecVal(str[..i]) < B128
    {
      ReadDigit(str, i);
      var digit := str[i] as int - '0' as int;
      var ok := TimesTenPlus(n, digit);
      if !ok {
        return None;
      }
      i := i + 1;
    }
    AtRunEnd(str, i);
    if i == 0 {
      return None;
    }
    LowWords(n[..], size);
    assert n[..][..size] == n[..size];
    result := Some((i, n[..size]));
  }

  lemma NoDigits(s: string)
    ensures AllDigits(s[..0]) && DecVal(s[..0]) == 0
  {
  }

  /** One more digit: the value so far stays below that of the whole run. */
  lemma ReadDigit(s: string, i: nat)
    requires i < |s| && AllDigits(s[..i]) && IsDigit(s[i])
    ensures i < DigitRun(s) && AllDigits(s[..i + 1]) && 0 <= s[i] as int - '0' as int < 10
    ensures DecVal(s[..i + 1]) == 10 * DecVal(s[..i]) + (s[i] as int - '0' as int) <= Leading(s)
  {
    DecSnoc(s, i);
    RunIsMaximal(s, i);
    DecMonotonic(s, i + 1, DigitRun(s));
  }

  lemma AtRunEnd(s: string, i: nat)
    requires i <= |s| && AllDigits(s[..i]) && (i < |s| ==> !IsDigit(s[i]))
    ensures i == DigitRun(s) && Leading(s) == DecVal(s[..i])
  {
    if i < |s| {
      RunIsMaximal(s, i);
    } else if DigitRun(s) < |s| {
      assert false;
    }
  }

  lemma LowWords(s: seq<u32>, size: nat)
    requires size <= |s|
    ensures Limbs(s[..size]) == Limbs(s) % P(size)
  {
    hide Limbs, P;
    BigSplit(s, size);
    BigBound(s[..size]);
    assert P(size) * Limbs(s[size..]) == Limbs(s[size..]) * P(size);
    DivUnique(Limbs(s), P(size), Limbs(s[size..]), Limbs(s[..size]));
  }

  function Ten(k: nat): nat {
    if k == 0 then 1 else 10 * Ten(k - 1)
  }

  lemma TenValue()
    ensures Ten(39) > B128
  {
    assert Ten(10) == 10000000000;
    assert Ten(20) == 100000000000000000000;
    assert Ten(30) == 1000000000000000000000000000000;
  }

  function Reversed(s: string): string {
    if s == "" then "" else [s[|s| - 1]] + Reversed(s[..|s| - 1])
  }

  /** The digits of a number, the last digit first, in front of what is left of it. */
  predicate Collected(n: nat, left: nat, buf: string) {
    DecText(n) == (if left == 0 then "" else DecText(left)) + Reversed(buf)
  }

  lemma ReversedSnoc(s: string, c: char)
    ensures Reversed(s + [c]) == [c] + Reversed(s)
  {
    assert (s + [c])[..|s|] == s;
  }

  lemma DecLast(n: nat)
    ensures DecText(n) == (if n < 10 then "" else DecText(n / 10)) + [DigitChar(n % 10)]
  {
  }

  lemma CollectOne(n: nat, left: nat, buf: string)
    requires left != 0 && Collected(n, left, buf)
    ensures Collected(n, left / 10, buf + [DigitChar(left % 10)])
  {
    hide DecText, Reversed, DigitChar;
    var head, c := if left < 10 then "" else DecText(left / 10), DigitChar(left % 10);
    DecLast(left);
    ReversedSnoc(buf, c);
    assert head + [c] + Reversed(buf) == head + ([c] + Reversed(buf));
  }

  /** Fills the buffer with the digits of a positive number, the last first; 40 are enough. */
  method CollectDigits(val0: Words, buf: array<char>) returns (i: nat)
    requires buf.Length == 40 && !(val0[0] == 0 && val0[1] == 0 && val0[2] == 0 && val0[3] == 0)
    modifies buf
    ensures i <= 39 && DecText(Limbs(val0)) == Reversed(buf[..i])
  {
    hide Limbs, DecText, Ten, Reversed, Collected;
    var val := new u32[4](k requires 0 <= k < 4 => val0[k]);
    assert val[..] == val0;
    i := 0;
    Start(val0);
    while i < 40 && (val[0] != 0 || val[1] != 0 || val[2] != 0 || val[3] != 0)
      invariant 0 <= i <= 39
      invariant Collected(Limbs(val0), Limbs(val[..]), buf[..i])
      invariant Limbs(val[..]) < Ten(39 - i)
    {
      NonZero(val[..]);
      TenStep(Limbs(val[..]), 39 - i);
      CollectOne(Limbs(val0), Limbs(val[..]), buf[..i]);
      var rem := DivTen128(val);
      buf[i] := DigitChar(rem);
      i := i + 1;
      assert buf[..i] == buf[..i - 1] + [buf[i - 1]];
    }
    BigZero(4, val[..]);
    CollectedAll(Limbs(val0), buf[..i]);
  }

  lemma CollectedAll(n: nat, buf: string)
    requires Collected(n, 0, buf)
    ensures DecText(n) == Reversed(buf)
  {
    assert "" + Reversed(buf) == Reversed(buf);
  }

  /** The decimal text of a 128-bit number. */
  method FormatDecNumber(val0: Words) returns (text: string)
    ensures text == DecText(Limbs(val0))
  {
    hide Limbs, DecText, Reversed;
    if val0[0] == 0 && val0[1] == 0 && val0[2] == 0 && val0[3] == 0 {
      BigZero(4, val0);
      ZeroText();
      return "0";
    }
    var buf := new char[40](_ => '0');
    var i := CollectDigits(val0, buf);
    ghost var digits := buf[..i];
    text := "";
    var j := 0;
    while j < i
      invariant 0 <= j <= i && buf[..i] == digits && text + Reversed(buf[..i - j]) == Reversed(digits)
    {
      ReversedFirst(buf[..i - j]);
      assert buf[..i - j][..i - j - 1] == buf[..i - j - 1];
      text := text + [buf[i - j - 1]];
      j := j + 1;
    }
    ReversedNone(buf[..0]);
    assert text == text + Reversed(buf[..0]);
  }

  lemma ReversedNone(s: string)
    requires s == ""
    ensures Reversed(s) == ""
  {
  }

  lemma ReversedFirst(s: string)
    requires s != ""
    ensures Reversed(s) == [s[|s| - 1]] + Reversed(s[..|s| - 1])
  {
  }

  lemma ZeroText()
    ensures DecText(0) == "0"
  {
  }

  lemma Start(w: Words)
    requires !(w[0] == 0 && w[1] == 0 && w[2] == 0 && w[3] == 0)
    ensures Collected(Limbs(w), Limbs(w), "") && Limbs(w) < Ten(39)
  {
    NonZero(w);
    TenValue();
    BigIsVal(w);
    ValBounds(w);
    hide Limbs, Val, Ten, DecText;
    assert DecText(Limbs(w)) + "" == DecText(Limbs(w));
    assert Reversed("") == "";
  }

  lemma NonZero(w: Words)
    requires !(w[0] == 0 && w[1] == 0 && w[2] == 0 && w[3] == 0)
    ensures Limbs(w) != 0
  {
    BigIsVal(w);
  }

  lemma TenStep(v: nat, k: nat)
    requires 0 < v < Ten(k)
    ensures 0 < k && v / 10 < Ten(k - 1)
  {
  }
}
