/** The printable form of a filter object: what is written, what is read, and that the second
    undoes the first. */
module Codec {
  import opened Words
  import opened Fields
  import opened Filter

  type Digit = d: nat | d < 32

  /** The alphabet is 0-9, A-Z, a-z, + and =; the last digit of a number is written from its
      second half. */
  function EncodeDigit(d: Digit, final: bool): char {
    var i := d + if final then 32 else 0;
    if i < 10 then ('0' as int + i) as char
    else if i < 36 then ('A' as int + i - 10) as char
    else if i < 62 then ('a' as int + i - 36) as char
    else if i == 62 then '+' else '='
  }

  function DecodeDigit(c: char): Option<(Digit, bool)> {
    if '0' <= c <= '9' then Some((c as int - '0' as int, false))
    else if 'A' <= c <= 'V' then Some((c as int - 'A' as int + 10, false))
    else if 'W' <= c <= 'Z' then Some((c as int - 'W' as int, true))
    else if 'a' <= c <= 'z' then Some((c as int - 'a' as int + 4, true))
    else if c == '+' then Some((30, true))
    else if c == '=' then Some((31, true))
    else None
  }

  lemma DigitRoundTrip(d: Digit, final: bool)
    ensures DecodeDigit(EncodeDigit(d, final)) == Some((d, final))
  {
  }

  /** `val` without its last `dig` digits. */
  function Shift(val: u32, dig: nat): u32 {
    if dig == 0 then val else Shift(val, dig - 1) / 32
  }

  function DigitAt(val: u32, dig: nat): Digit {
    Shift(val, dig) % 32
  }

  /** The first digit to write: the highest that is not 0. */
  function Top(val: u32, dig: nat): (top: nat)
    ensures top <= dig
  {
    if dig == 0 || DigitAt(val, dig) != 0 then dig else Top(val, dig - 1)
  }

  function DigitsFrom(val: u32, dig: nat): string {
    [EncodeDigit(DigitAt(val, dig), dig == 0)] + if dig == 0 then "" else DigitsFrom(val, dig - 1)
  }

  function NumberText(val: u32): string {
    DigitsFrom(val, Top(val, 6))
  }

  /** Reads at most `maxLen` digits; `acc` is what was read so far. */
  function ParseNumber(s: string, maxLen: nat, acc: u32): Option<(u32, string)> {
    if maxLen == 0 || acc >= 0x800_0000 || s == "" || DecodeDigit(s[0]).None? then None
    else
      var (d, final) := DecodeDigit(s[0]).value;
      if final then Some((acc * 32 + d, s[1..])) else ParseNumber(s[1..], maxLen - 1, acc * 32 + d)
  }

  lemma {:induction false} ParseDigits(val: u32, dig: nat, maxLen: nat, rest: string)
    requires dig < maxLen
    ensures ParseNumber(DigitsFrom(val, dig) + rest, maxLen, Shift(val, dig + 1)) == Some((val, rest))
  {
    var s := DigitsFrom(val, dig) + rest;
    assert s[0] == EncodeDigit(DigitAt(val, dig), dig == 0);
    assert s[1..] == (if dig == 0 then "" else DigitsFrom(val, dig - 1)) + rest;
    DigitRoundTrip(DigitAt(val, dig), dig == 0);
    ShiftSmall(val, dig);
    hide EncodeDigit, DecodeDigit, DigitAt, Shift;
    if dig == 0 {
      assert s[1..] == rest;
    } else {
      ParseDigits(val, dig - 1, maxLen - 1, rest);
    }
  }

  lemma {:induction false} ShiftSmall(val: u32, dig: nat)
    ensures Shift(val, dig + 1) < 0x800_0000
    ensures Shift(val, dig + 1) * 32 + DigitAt(val, dig) == Shift(val, dig)
  {
    if dig != 0 {
      ShiftSmall(val, dig - 1);
    }
  }

  lemma {:induction false} TopIsFirst(val: u32, dig: nat)
    requires Shift(val, dig + 1) == 0
    ensures Shift(val, Top(val, dig) + 1) == 0
  {
    if dig != 0 && DigitAt(val, dig) == 0 {
      ShiftSmall(val, dig);
      TopIsFirst(val, dig - 1);
    }
  }

  lemma {:induction false} TopBound(val: u32, dig: nat, k: nat)
    requires k <= dig && forall j :: k < j <= dig ==> Shift(val, j) == 0
    ensures Top(val, dig) <= k
  {
    if k < dig {
      assert Shift(val, dig) == 0;
      TopBound(val, dig - 1, k);
    }
  }

  /** A number is read back, whatever follows it, if its digits may all be read. */
  lemma NumberRoundTrip(val: u32, maxLen: nat, rest: string)
    requires maxLen >= 7 || (maxLen >= 2 && val < 1024) || (maxLen >= 1 && val < 32)
    ensures ParseNumber(NumberText(val) + rest, maxLen, 0) == Some((val, rest))
  {
    ShiftValues(val);
    TopIsFirst(val, 6);
    TopBound(val, 6, 6);
    if val < 32 {
      TopBound(val, 6, 0);
    } else if val < 1024 {
      TopBound(val, 6, 1);
    }
    ParseDigits(val, Top(val, 6), maxLen, rest);
  }

  lemma ShiftValues(val: u32)
    ensures Shift(val, 7) == 0
    ensures val < 32 ==> forall j :: 0 < j <= 6 ==> Shift(val, j) == 0
    ensures val < 1024 ==> forall j :: 1 < j <= 6 ==> Shift(val, j) == 0
  {
    assert Shift(val, 1) == val / 32;
    assert Shift(val, 2) == Shift(val, 1) / 32;
    assert Shift(val, 3) == Shift(val, 2) / 32;
    assert Shift(val, 4) == Shift(val, 3) / 32;
    assert Shift(val, 5) == Shift(val, 4) / 32;
    assert Shift(val, 6) == Shift(val, 5) / 32;
    assert Shift(val, 7) == Shift(val, 6) / 32;
  }

  function LabelText(l: Label): string
    requires InObject(l, MAXLEN + 1)
  {
    match l
    case Accept => "A"
    case Reject => "X"
    case Jump(t) => "L" + NumberText(t)
  }

  function ParseLabel(s: string): Option<(Label, string)> {
    if s == "" then None
    else if s[0] == 'A' then Some((Accept, s[1..]))
    else if s[0] == 'X' then Some((Reject, s[1..]))
    else if s[0] == 'L' then
      var (t, rest) :- ParseNumber(s[1..], 2, 0);
      if t > MAXLEN then None else Some((Jump(t), rest))
    else None
  }

  lemma LabelRoundTrip(l: Label, rest: string)
    requires InObject(l, MAXLEN + 1)
    ensures ParseLabel(LabelText(l) + rest) == Some((l, rest))
  {
    var s := LabelText(l) + rest;
    if l.Jump? {
      assert s[1..] == NumberText(l.target) + rest;
      NumberRoundTrip(l.target, 2, rest);
    } else {
      assert s[1..] == rest;
    }
  }

  predicate IsAddress128(f: Field) {
    f == IPV6_SRCADDR || f == IPV6_DSTADDR || f == LOCALADDR || f == REMOTEADDR
  }

  const UINT16_MAX := 0xFFFF

  /** The words of a literal beyond the first that the format has room for. */
  function ArgsText(f: Field, arg: Words): string {
    if IsAddress128(f) then NumberText(arg[1]) + NumberText(arg[2]) + NumberText(arg[3])
    else if IsTwoWord(f) then NumberText(arg[1])
    else if IsArray(f) then NumberText((arg[1] + UINT16_MAX) % B32)
    else ""
  }

  /** The literal as it comes back. */
  function CanonArg(f: Field, arg: Words): Words {
    if IsAddress128(f) then arg
    else if IsTwoWord(f) || IsArray(f) then [arg[0], arg[1], 0, 0]
    else if f == IP_SRCADDR || f == IP_DSTADDR then [arg[0], 0xFFFF, 0, 0]
    else [arg[0], 0, 0, 0]
  }

  function ParseArgs(f: Field, first: u32, s: string): Option<(Words, string)> {
    if IsAddress128(f) then
      var (a, s1) :- ParseNumber(s, 7, 0);
      var (b, s2) :- ParseNumber(s1, 7, 0);
      var (c, s3) :- ParseNumber(s2, 7, 0);
      Some(([first, a, b, c], s3))
    else if IsTwoWord(f) then
      var (a, s1) :- ParseNumber(s, 7, 0);
      Some(([first, a, 0, 0], s1))
    else if f == IP_SRCADDR || f == IP_DSTADDR then Some(([first, 0xFFFF, 0, 0], s))
    else if IsArray(f) then
      var (a, s1) :- ParseNumber(s, 7, 0);
      Some(([first, (a - UINT16_MAX) % B32, 0, 0], s1))
    else Some(([first, 0, 0, 0], s))
  }

  lemma ArgsRoundTrip(f: Field, arg: Words, rest: string)
    ensures ParseArgs(f, arg[0], ArgsText(f, arg) + rest) == Some((CanonArg(f, arg), rest))
  {
    hide NumberText, ParseNumber;
    if IsAddress128(f) {
      var s2 := NumberText(arg[3]) + rest;
      var s1 := NumberText(arg[2]) + s2;
      assert ArgsText(f, arg) + rest == NumberText(arg[1]) + s1;
      NumberRoundTrip(arg[1], 7, s1);
      NumberRoundTrip(arg[2], 7, s2);
      NumberRoundTrip(arg[3], 7, rest);
      assert [arg[0], arg[1], arg[2], arg[3]] == arg;
    } else if IsTwoWord(f) {
      NumberRoundTrip(arg[1], 7, rest);
    } else if IsArray(f) {
      var idx := (arg[1] + UINT16_MAX) % B32;
      NumberRoundTrip(idx, 7, rest);
      assert (idx - UINT16_MAX) % B32 == arg[1];
    } else {
      assert ArgsText(f, arg) + rest == rest;
    }
  }

  function TestNumber(t: Test): nat {
    match t case EQ => 0 case NEQ => 1 case LT => 2 case LEQ => 3 case GT => 4 case GEQ => 5
  }

  function NumberTest(n: nat): Test
    requires n <= 5
  {
    if n == 0 then EQ else if n == 1 then NEQ else if n == 2 then LT
    else if n == 3 then LEQ else if n == 4 then GT else GEQ
  }

  function Canon(insn: Insn): Insn {
    insn.(arg := CanonArg(insn.field, insn.arg))
  }

  predicate Labelled(insn: Insn) {
    InObject(insn.success, MAXLEN + 1) && InObject(insn.failure, MAXLEN + 1)
  }

  function TestText(insn: Insn): string
    requires Labelled(insn)
  {
    "_" + NumberText(insn.field) + NumberText(TestNumber(insn.test)) + NumberText(if insn.neg then 1 else 0)
    + NumberText(insn.arg[0]) + ArgsText(insn.field, insn.arg) + LabelText(insn.success) + LabelText(insn.failure)
  }

  function ParseChar(s: string, c: char): Option<string> {
    if s == "" || s[0] != c then None else Some(s[1..])
  }

  function ParseBelow(s: string, maxLen: nat, max: nat): Option<(u32, string)> {
    var (n, rest) :- ParseNumber(s, maxLen, 0);
    if n > max then None else Some((n, rest))
  }

  function ParseTest(s: string): (r: Option<(Insn, string)>)
    ensures r.Some? ==> Labelled(r.value.0)
  {
    var s1 :- ParseChar(s, '_');
    var (f, s2) :- ParseBelow(s1, 2, FIELD_MAX);
    var (t, s3) :- ParseBelow(s2, 2, 5);
    var (n, s4) :- ParseBelow(s3, 1, 1);
    var (a, s5) :- ParseNumber(s4, 7, 0);
    var (arg, s6) :- ParseArgs(f, a, s5);
    var (yes, s7) :- ParseLabel(s6);
    var (no, s8) :- ParseLabel(s7);
    Some((Insn(f, NumberTest(t), n == 1, arg, yes, no), s8))
  }

  lemma TestRoundTrip(insn: Insn, rest: string)
    requires Labelled(insn)
    ensures ParseTest(TestText(insn) + rest) == Some((Canon(insn), rest))
  {
    hide NumberText, ParseNumber, ArgsText, ParseArgs, LabelText, ParseLabel;
    var neg := if insn.neg then 1 else 0;
    var s8 := LabelText(insn.failure) + rest;
    var s7 := LabelText(insn.success) + s8;
    var s6 := ArgsText(insn.field, insn.arg) + s7;
    var s5 := NumberText(insn.arg[0]) + s6;
    var s4 := NumberText(neg) + s5;
    var s3 := NumberText(TestNumber(insn.test)) + s4;
    var s2 := NumberText(insn.field) + s3;
    assert TestText(insn) + rest == "_" + s2;
    assert ("_" + s2)[1..] == s2;
    NumberRoundTrip(insn.field, 2, s3);
    NumberRoundTrip(TestNumber(insn.test), 2, s4);
    NumberRoundTrip(neg, 1, s5);
    NumberRoundTrip(insn.arg[0], 7, s6);
    ArgsRoundTrip(insn.field, insn.arg, s7);
    LabelRoundTrip(insn.success, s8);
    LabelRoundTrip(insn.failure, rest);
  }

  predicate AllLabelled(obj: seq<Insn>) {
    forall i :: 0 <= i < |obj| ==> Labelled(obj[i])
  }

  function TestsText(obj: seq<Insn>): string
    requires AllLabelled(obj)
  {
    if obj == [] then "" else TestText(obj[0]) + TestsText(obj[1..])
  }

  const MAGIC := "@WinDiv_"

  /** The length travels as one byte, so an object of 256 tests is announced as empty. */
  function FilterText(obj: seq<Insn>): string
    requires AllLabelled(obj) && |obj| <= MAXLEN
  {
    var len := |obj| % 0x100;
    MAGIC + NumberText(0) + NumberText(len) + TestsText(obj[..len])
  }

  /** Reads tests `i` to `len - 1`; their jumps must go forward and stay inside. */
  function ParseTests(s: string, i: nat, len: nat): (r: Option<(seq<Insn>, string)>)
    requires i <= len
    ensures r.Some? ==> |r.value.0| == len - i
    ensures r.Some? ==> forall k :: 0 <= k < len - i ==>
              ForwardLabel(r.value.0[k].success, i + k, len) && ForwardLabel(r.value.0[k].failure, i + k, len)
    decreases len - i
  {
    if i == len then Some(([], s))
    else
      var (insn, s1) :- ParseTest(s);
      if !ForwardLabel(insn.success, i, len) || !ForwardLabel(insn.failure, i, len) then None
      else
        var (more, s2) :- ParseTests(s1, i + 1, len);
        Some(([insn] + more, s2))
  }

  function ParseHeader(s: string): Option<(nat, string)> {
    if !(MAGIC <= s) then None
    else
      var (version, s1) :- ParseNumber(s[|MAGIC|..], 4, 0);
      var (len, s2) :- ParseNumber(s1, 2, 0);
      if version != 0 || len == 0 || len > MAXLEN then None else Some((len, s2))
  }

  /** Whatever the text, an object that is accepted has forward jumps only and a length the
      evaluator allows. */
  function ParseFilter(s: string): (r: Option<seq<Insn>>)
    ensures r.Some? ==> 1 <= |r.value| <= MAXLEN && Forward(r.value)
  {
    var (len, s1) :- ParseHeader(s);
    var (obj, s2) :- ParseTests(s1, 0, len);
    var _ :- ParseChar(s2, '\0');
    Some(obj)
  }

  function CanonAll(obj: seq<Insn>): seq<Insn> {
    seq(|obj|, i requires 0 <= i < |obj| => Canon(obj[i]))
  }

  lemma {:induction false} TestsRoundTrip(obj: seq<Insn>, i: nat, rest: string)
    requires Forward(obj) && |obj| <= MAXLEN && i <= |obj| && AllLabelled(obj)
    ensures ParseTests(TestsText(obj[i..]) + rest, i, |obj|) == Some((CanonAll(obj)[i..], rest))
    decreases |obj| - i
  {
    hide TestText, ParseTest;
    if i == |obj| {
      assert TestsText(obj[i..]) + rest == rest;
    } else {
      var more := TestsText(obj[i + 1..]) + rest;
      assert obj[i..][1..] == obj[i + 1..];
      assert TestsText(obj[i..]) + rest == TestText(obj[i]) + more;
      TestRoundTrip(obj[i], more);
      TestsRoundTrip(obj, i + 1, rest);
      assert CanonAll(obj)[i..] == [Canon(obj[i])] + CanonAll(obj)[i + 1..];
    }
  }

  lemma ForwardLabelled(obj: seq<Insn>)
    requires Forward(obj) && |obj| <= MAXLEN
    ensures AllLabelled(obj)
  {
  }

  lemma HeaderRoundTrip(len: nat, rest: string)
    requires len < 0x100
    ensures ParseHeader(MAGIC + NumberText(0) + NumberText(len) + rest) == if len == 0 then None else Some((len, rest))
  {
    hide NumberText, ParseNumber;
    var s := MAGIC + NumberText(0) + NumberText(len) + rest;
    assert s[|MAGIC|..] == NumberText(0) + (NumberText(len) + rest);
    NumberRoundTrip(0, 4, NumberText(len) + rest);
    NumberRoundTrip(len, 2, rest);
  }

  /** Reading back what was written gives the object with its unused literal words cleared, for
      every object the evaluator can run but those of 256 tests, whose text is refused. */
  lemma FilterRoundTrip(obj: seq<Insn>, rest: string)
    requires Forward(obj) && 1 <= |obj| <= MAXLEN && AllLabelled(obj)
    ensures ParseFilter(FilterText(obj) + "\0" + rest) == if |obj| < 0x100 then Some(CanonAll(obj)) else None
  {
    hide NumberText, TestsText, ParseTests;
    var len := |obj| % 0x100;
    var tail := TestsText(obj[..len]) + ("\0" + rest);
    assert FilterText(obj) + "\0" + rest == MAGIC + NumberText(0) + NumberText(len) + tail;
    HeaderRoundTrip(len, tail);
    if len != 0 {
      assert obj[..len] == obj == obj[0..];
      TestsRoundTrip(obj, 0, "\0" + rest);
      assert CanonAll(obj)[0..] == CanonAll(obj);
    }
  }
}
