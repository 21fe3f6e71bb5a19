/** Writing filter objects into a caller's buffer and reading them from a stream. */
module Stream {
  import opened Words
  import opened Fields
  import opened Filter
  import opened Codec

  method FirstDigit(val: u32) returns (dig: nat)
    ensures dig == Top(val, 6)
  {
    dig := 6;
    while DigitAt(val, dig) == 0 && dig != 0
      invariant dig <= 6 && Top(val, 6) == Top(val, dig)
    {
      dig := dig - 1;
    }
  }

  lemma Unroll(written: string, val: u32, dig: nat, c: char)
    requires c == EncodeDigit(DigitAt(val, dig), dig == 0)
    ensures dig > 0 ==> written + [c] + DigitsFrom(val, dig - 1) == written + DigitsFrom(val, dig)
    ensures dig == 0 ==> written + [c] == written + DigitsFrom(val, dig)
  {
    hide EncodeDigit, DigitAt;
  }

  lemma FirstText(val: u32)
    ensures "" + DigitsFrom(val, Top(val, 6)) == NumberText(val)
  {
    hide DigitsFrom;
  }

  lemma Assoc(a: string, b: string, c: string)
    ensures a + b + c == a + (b + c)
  {
  }

  /** An output stream over a fixed buffer; `text` is everything put into it so far. */
  class Writer {
    const data: array<char>
    var pos: nat
    var overflow: bool
    ghost var text: string

    constructor (data: array<char>)
      ensures this.data == data && Valid() && text == ""
    {
      this.data := data;
      pos, overflow, text := 0, false, "";
    }

    /** The buffer holds as much of the text as fits, and overflow tells if that is not all. */
    ghost predicate Valid()
      reads this, data
    {
      && pos == (if |text| <= data.Length then |text| else data.Length)
      && data[..pos] == text[..pos]
      && (overflow <==> |text| > data.Length)
    }

    method PutChar(c: char)
      requires Valid()
      modifies this, data
      ensures Valid() && text == old(text) + [c]
    {
      ghost var before := text;
      text := text + [c];
      if pos >= data.Length {
        overflow := true;
        return;
      }
      data[pos] := c;
      pos := pos + 1;
      assert data[..pos] == data[..pos - 1] + [c];
    }

    method PutString(s: string)
      requires Valid()
      modifies this, data
      ensures Valid() && text == old(text) + s
    {
      for i := 0 to |s|
        invariant Valid() && text == old(text) + s[..i]
      {
        PutChar(s[i]);
      }
    }

    /** Terminates the text.  A full buffer is cut short to make room, and not reported. */
    method PutNul()
      requires Valid()
      modifies this, data
      ensures text == old(text)
      ensures |text| < data.Length ==> !overflow && data[..|text| + 1] == text + "\0"
      ensures |text| >= data.Length > 0 ==> data[..] == text[..data.Length - 1] + "\0"
      ensures overflow <==> |text| > data.Length || data.Length == 0
    {
      ghost var whole := text;
      if pos >= data.Length && data.Length > 0 {
        data[data.Length - 1] := '\0';
        assert data[..data.Length - 1] == old(data[..data.Length])[..data.Length - 1];
        assert data[..] == data[..data.Length - 1] + "\0";
      } else {
        PutChar('\0');
        text := whole;
      }
    }

    method SerializeNumber(val: u32)
      requires Valid()
      modifies this, data
      ensures Valid() && text == old(text) + NumberText(val)
    {
      hide Writer.Valid, EncodeDigit, DigitAt, DigitsFrom, NumberText;
      var dig := FirstDigit(val);
      ghost var written := "";
      FirstText(val);
      while true
        invariant 0 <= dig
        invariant Valid() && text == old(text) + written && written + DigitsFrom(val, dig) == NumberText(val)
        decreases dig
      {
        var c := EncodeDigit(DigitAt(val, dig), dig == 0);
        PutChar(c);
        Assoc(old(text), written, [c]);
        Unroll(written, val, dig, c);
        written := written + [c];
        if dig == 0 {
          break;
        }
        dig := dig - 1;
      }
    }

    method SerializeLabel(l: Label)
      requires Valid() && InObject(l, MAXLEN + 1)
      modifies this, data
      ensures Valid() && text == old(text) + LabelText(l)
    {
      hide Writer.Valid, NumberText;
      match l
      case Accept => PutChar('A');
      case Reject => PutChar('X');
      case Jump(t) =>
        PutChar('L');
        SerializeNumber(t);
    }

    method SerializeArgs(f: Field, arg: Words)
      requires Valid()
      modifies this, data
      ensures Valid() && text == old(text) + ArgsText(f, arg)
    {
      hide Writer.Valid, NumberText;
      if IsAddress128(f) {
        SerializeNumber(arg[1]);
        SerializeNumber(arg[2]);
        SerializeNumber(arg[3]);
      } else if IsTwoWord(f) {
        SerializeNumber(arg[1]);
      } else if IsArray(f) {
        SerializeNumber((arg[1] + UINT16_MAX) % B32);
      }
    }

    method SerializeTest(insn: Insn)
      requires Valid() && Labelled(insn)
      modifies this, data
      ensures Valid() && text == old(text) + TestText(insn)
    {
      hide Writer.Valid, NumberText, ArgsText, LabelText;
      ghost var base, t := text, "_";
      PutChar('_');
      Assoc(base, t, NumberText(insn.field));
      SerializeNumber(insn.field);
      t := t + NumberText(insn.field);
      Assoc(base, t, NumberText(TestNumber(insn.test)));
      SerializeNumber(TestNumber(insn.test));
      t := t + NumberText(TestNumber(insn.test));
      var neg := if insn.neg then 1 else 0;
      Assoc(base, t, NumberText(neg));
      SerializeNumber(neg);
      t := t + NumberText(neg);
      Assoc(base, t, NumberText(insn.arg[0]));
      SerializeNumber(insn.arg[0]);
      t := t + NumberText(insn.arg[0]);
      Assoc(base, t, ArgsText(insn.field, insn.arg));
      SerializeArgs(insn.field, insn.arg);
      t := t + ArgsText(insn.field, insn.arg);
      Assoc(base, t, LabelText(insn.success));
      SerializeLabel(insn.success);
      t := t + LabelText(insn.success);
      Assoc(base, t, LabelText(insn.failure));
      SerializeLabel(insn.failure);
      t := t + LabelText(insn.failure);
    }

    /** Writes an object and a terminator.  Without overflow the text is complete, except in a
        buffer of exactly its length, where the last character is lost unreported. */
    method SerializeFilter(obj: seq<Insn>)
      requires Valid() && text == "" && AllLabelled(obj) && |obj| <= MAXLEN
      modifies this, data
      ensures text == FilterText(obj)
      ensures overflow <==> |text| > data.Length || data.Length == 0
      ensures |text| < data.Length ==> data[..|text| + 1] == text + "\0"
      ensures |text| == data.Length > 0 ==> !overflow && data[..] == text[..|text| - 1] + "\0"
    {
      hide FilterText, Writer.Valid;
      PutTests(obj);
      PutNul();
    }

    method PutTests(obj: seq<Insn>)
      requires Valid() && text == "" && AllLabelled(obj) && |obj| <= MAXLEN
      modifies this, data
      ensures Valid() && text == FilterText(obj)
    {
      hide Writer.Valid, NumberText, TestText, TestsText;
      var length := |obj| % 0x100;
      ghost var t := MAGIC;
      PutString(MAGIC);
      Assoc("", t, NumberText(0));
      SerializeNumber(0);
      t := t + NumberText(0);
      Assoc("", t, NumberText(length));
      SerializeNumber(length);
      t := t + NumberText(length);
      ghost var done := "";
      assert obj[0..length] == obj[..length];
      for i := 0 to length
        invariant Valid() && text == t + done && done + TestsText(obj[i..length]) == TestsText(obj[..length])
      {
        TestsStep(obj, i, length);
        Assoc(done, TestText(obj[i]), TestsText(obj[i + 1..length]));
        Assoc(t, done, TestText(obj[i]));
        SerializeTest(obj[i]);
        done := done + TestText(obj[i]);
      }
      TestsEnd(obj[length..length]);
    }
  }

  lemma TestsStep(obj: seq<Insn>, i: nat, len: nat)
    requires i < len <= |obj| && AllLabelled(obj)
    ensures TestsText(obj[i..len]) == TestText(obj[i]) + TestsText(obj[i + 1..len])
  {
    hide TestText;
    assert obj[i..len][1..] == obj[i + 1..len];
  }

  lemma TestsEnd(obj: seq<Insn>)
    requires obj == []
    ensures AllLabelled(obj) && TestsText(obj) == ""
  {
  }

  /** `read` tests are done; `r` is what parsing the others gives. */
  function Prepend(read: seq<Insn>, r: Option<(seq<Insn>, string)>): Option<(seq<Insn>, string)> {
    if r.None? then None else Some((read + r.value.0, r.value.1))
  }

  lemma PrependNone(r: Option<(seq<Insn>, string)>)
    ensures Prepend([], r) == r
  {
    if r.Some? {
      assert [] + r.value.0 == r.value.0;
    }
  }

  lemma PrependOne(read: seq<Insn>, insn: Insn, r: Option<(seq<Insn>, string)>)
    ensures Prepend(read, Prepend([insn], r)) == Prepend(read + [insn], r)
  {
    if r.Some? {
      assert read + ([insn] + r.value.0) == read + [insn] + r.value.0;
    }
  }

  lemma NotPrefix(s: string, i: nat, whole: string, tail: string)
    requires i < |s| && whole == s[..i] + tail && (tail == "" || tail[0] != s[i])
    ensures !(s <= whole)
  {
    if tail != "" {
      assert whole[i] == tail[0];
    }
  }

  /** An input stream. */
  class Reader {
    const data: string
    var pos: nat

    constructor (data: string)
      ensures this.data == data && pos == 0
    {
      this.data := data;
      pos := 0;
    }

    ghost predicate Valid()
      reads this
    {
      pos <= |data|
    }

    ghost function Rest(): string
      requires Valid()
      reads this
    {
      data[pos..]
    }

    method GetChar() returns (c: Option<char>)
      requires Valid()
      modifies this
      ensures Valid()
      ensures old(Rest()) == "" ==> c == None && Rest() == ""
      ensures old(Rest()) != "" ==> c == Some(old(Rest())[0]) && Rest() == old(Rest())[1..]
    {
      if pos >= |data| {
        return None;
      }
      c := Some(data[pos]);
      pos := pos + 1;
    }

    method Expect(c: char) returns (ok: bool)
      requires Valid()
      modifies this
      ensures Valid()
      ensures var spec := ParseChar(old(Rest()), c); ok == spec.Some? && (ok ==> Rest() == spec.value)
    {
      var next := GetChar();
      ok := next == Some(c);
    }

    method DeserializeNumber(maxLen: nat) returns (r: Option<u32>)
      requires Valid()
      modifies this
      ensures Valid()
      ensures var spec := ParseNumber(old(Rest()), maxLen, 0);
              r.Some? == spec.Some? && (r.Some? ==> spec.value == (r.value, Rest()))
    {
      hide DecodeDigit;
      var val: u32 := 0;
      for i := 0 to maxLen
        invariant Valid()
        invariant ParseNumber(old(Rest()), maxLen, 0) == ParseNumber(Rest(), maxLen - i, val)
      {
        if val >= 0x800_0000 {
          return None;
        }
        var c := GetChar();
        if c.None? || DecodeDigit(c.value).None? {
          return None;
        }
        var (digit, final) := DecodeDigit(c.value).value;
        val := val * 32 + digit;
        if final {
          return Some(val);
        }
      }
      r := None;
    }

    method DeserializeBelow(maxLen: nat, max: nat) returns (r: Option<u32>)
      requires Valid()
      modifies this
      ensures Valid()
      ensures var spec := ParseBelow(old(Rest()), maxLen, max);
              r.Some? == spec.Some? && (r.Some? ==> spec.value == (r.value, Rest()) && r.value <= max)
    {
      hide ParseNumber;
      r := DeserializeNumber(maxLen);
      if r.Some? && r.value > max {
        r := None;
      }
    }

    method DeserializeLabel() returns (r: Option<Label>)
      requires Valid()
      modifies this
      ensures Valid()
      ensures var spec := ParseLabel(old(Rest()));
              r.Some? == spec.Some? && (r.Some? ==> spec.value == (r.value, Rest()))
    {
      hide ParseNumber;
      var c := GetChar();
      if c == Some('A') {
        return Some(Accept);
      } else if c == Some('X') {
        return Some(Reject);
      } else if c == Some('L') {
        var t := DeserializeNumber(2);
        if t.None? || t.value > MAXLEN {
          return None;
        }
        return Some(Jump(t.value));
      }
      return None;
    }

    method DeserializeArgs(f: Field, first: u32) returns (r: Option<Words>)
      requires Valid()
      modifies this
      ensures Valid()
      ensures var spec := ParseArgs(f, first, old(Rest()));
              r.Some? == spec.Some? && (r.Some? ==> spec.value == (r.value, Rest()))
    {
      hide ParseNumber;
      if IsAddress128(f) {
        var a := DeserializeNumber(7);
        if a.None? { return None; }
        var b := DeserializeNumber(7);
        if b.None? { return None; }
        var c := DeserializeNumber(7);
        if c.None? { return None; }
        return Some([first, a.value, b.value, c.value]);
      } else if IsTwoWord(f) {
        var a := DeserializeNumber(7);
        return if a.None? then None else Some([first, a.value, 0, 0]);
      } else if f == IP_SRCADDR || f == IP_DSTADDR {
        return Some([first, 0xFFFF, 0, 0]);
      } else if IsArray(f) {
        var a := DeserializeNumber(7);
        return if a.None? then None else Some([first, (a.value - UINT16_MAX) % B32, 0, 0]);
      }
      return Some([first, 0, 0, 0]);
    }

    method DeserializeTest() returns (r: Option<Insn>)
      requires Valid()
      modifies this
      ensures Valid()
      ensures var spec := ParseTest(old(Rest()));
              r.Some? == spec.Some? && (r.Some? ==> spec.value == (r.value, Rest()))
    {
      hide ParseNumber, ParseBelow, ParseArgs, ParseLabel, Reader.Rest;
      var ok := Expect('_');
      if !ok { return None; }
      var f := DeserializeBelow(2, FIELD_MAX);
      if f.None? { return None; }
      var t := DeserializeBelow(2, 5);
      if t.None? { return None; }
      var n := DeserializeBelow(1, 1);
      if n.None? { return None; }
      var a := DeserializeNumber(7);
      if a.None? { return None; }
      var arg := DeserializeArgs(f.value, a.value);
      if arg.None? { return None; }
      var yes := DeserializeLabel();
      if yes.None? { return None; }
      var no := DeserializeLabel();
      if no.None? { return None; }
      return Some(Insn(f.value, NumberTest(t.value), n.value == 1, arg.value, yes.value, no.value));
    }

    method ExpectString(s: string) returns (ok: bool)
      requires Valid()
      modifies this
      ensures Valid() && ok == (s <= old(Rest())) && (ok ==> Rest() == old(Rest())[|s|..])
    {
      for i := 0 to |s|
        invariant Valid() && old(Rest()) == s[..i] + Rest()
      {
        ghost var tail := Rest();
        var c := GetChar();
        if c != Some(s[i]) {
          NotPrefix(s, i, old(Rest()), tail);
          return false;
        }
      }
      return true;
    }

    method DeserializeHeader() returns (r: Option<nat>)
      requires Valid()
      modifies this
      ensures Valid()
      ensures var spec := ParseHeader(old(Rest()));
              r.Some? == spec.Some? && (r.Some? ==> spec.value == (r.value, Rest()))
    {
      hide ParseNumber, Reader.Rest;
      var ok := ExpectString(MAGIC);
      if !ok { return None; }
      var version := DeserializeNumber(4);
      if version.None? || version.value != 0 { return None; }
      var len := DeserializeNumber(2);
      if len.None? || len.value == 0 || len.value > MAXLEN { return None; }
      return Some(len.value);
    }

    method DeserializeFilter() returns (r: Option<seq<Insn>>)
      requires Valid()
      modifies this
      ensures r == ParseFilter(old(Rest()))
    {
      hide ParseHeader, ParseTest, Reader.Rest;
      var len := DeserializeHeader();
      if len.None? { return None; }
      ghost var body := Rest();
      var obj: seq<Insn> := [];
      PrependNone(ParseTests(body, 0, len.value));
      for i := 0 to len.value
        invariant Valid() && |obj| == i
        invariant ParseTests(body, 0, len.value) == Prepend(obj, ParseTests(Rest(), i, len.value))
      {
        var insn := DeserializeTest();
        if insn.None? { return None; }
        if !ForwardLabel(insn.value.success, i, len.value) || !ForwardLabel(insn.value.failure, i, len.value) {
          return None;
        }
        PrependOne(obj, insn.value, ParseTests(Rest(), i + 1, len.value));
        obj := obj + [insn.value];
      }
      assert obj + [] == obj;
      var ok := Expect('\0');
      return if ok then Some(obj) else None;
    }
  }
}
