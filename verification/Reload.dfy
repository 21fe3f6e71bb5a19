/** Compiling a filter to its printable form and using that form in its place. */
module Reload {
  import opened Filter
  import opened Simplify
  import opened Compile
  import opened Codec
  import opened Stream

  /** Clearing the words the format has no room for does not change a compiled test. */
  lemma CanonTruth(insn: Insn, v: View)
    requires FromCompiler(insn.field, insn.neg, insn.arg) && OthersTyped(v)
    ensures Truth(Canon(insn), v) == Truth(insn, v)
  {
    var f, arg := insn.field, CanonArg(insn.field, insn.arg);
    if IsWide(f) {
      assert arg == insn.arg;
    } else {
      ValuesTyped(v, f, arg[1]);
      ValuesTyped(v, f, insn.arg[1]);
      hide OthersTyped, FieldValue;
    }
  }

  ghost predicate Compiled(obj: seq<Insn>) {
    Forward(obj) && forall i :: 0 <= i < |obj| ==> FromCompiler(obj[i].field, obj[i].neg, obj[i].arg)
  }

  lemma {:induction false} CanonAccepts(obj: seq<Insn>, l: Label, v: View)
    requires Compiled(obj) && InObject(l, |obj|) && OthersTyped(v)
    ensures Forward(CanonAll(obj))
    ensures Accepts(CanonAll(obj), l, v) == Accepts(obj, l, v)
    decreases if l.Jump? then |obj| - l.target else 0
  {
    hide OthersTyped, Truth, FromCompiler;
    if l.Jump? {
      var insn := obj[l.target];
      assert FromCompiler(insn.field, insn.neg, insn.arg);
      assert CanonAll(obj)[l.target] == Canon(insn);
      CanonTruth(insn, v);
      CanonAccepts(obj, if Truth(insn, v) then insn.success else insn.failure, v);
    }
  }

  lemma Reloads(e: Expr, obj: seq<Insn>, v: View)
    requires Compiled(obj) && 0 < |obj| && OthersTyped(v) && AllSettled(e, v)
    requires OthersTyped(v) && AllSettled(e, v) ==> Accepts(obj, Jump(0), v) == ExprMeaning(e, v)
    ensures Forward(CanonAll(obj)) && Accepts(CanonAll(obj), Jump(0), v) == ExprMeaning(e, v)
  {
    hide OthersTyped, AllSettled, ExprMeaning, Accepts;
    CanonAccepts(obj, Jump(0), v);
  }

  /** Does the text in the buffer decide inputs as the expression reads? */
  ghost predicate Stands(text: string, e: Expr) {
    && ParseFilter(text).Some?
    && forall v: View :: OthersTyped(v) && AllSettled(e, v) ==>
         Accepts(ParseFilter(text).value, Jump(0), v) == ExprMeaning(e, v)
  }

  /** Compiles to text.  With room for the terminator, what a later reader makes of the buffer
      stands for the expression, provided the object has at most 255 tests; one of 256 is
      refused by the reader.  A buffer of exactly the text's length is reported as success
      although its last character is gone. */
  method CompileToText(e: Expr, buffer: array<char>) returns (ok: bool, ghost obj: seq<Insn>)
    modifies buffer
    ensures ok ==> Size(e) <= MAXLEN && 1 <= |obj| <= MAXLEN && (|obj| == 1 || |obj| <= Size(e))
    ensures ok ==> AllLabelled(obj) && |FilterText(obj)| <= buffer.Length
    ensures ok && |FilterText(obj)| < buffer.Length && |obj| < 0x100 ==> Stands(buffer[..], e)
    ensures ok && |FilterText(obj)| < buffer.Length && |obj| == 0x100 ==> ParseFilter(buffer[..]) == None
    ensures ok && |FilterText(obj)| == buffer.Length ==> buffer[..] == FilterText(obj)[..buffer.Length - 1] + "\0"
  {
    hide OthersTyped, AllSettled, ExprMeaning, Accepts, FromCompiler, ExprFits, FieldsValid, FilterText;
    hide ParseFilter, Folded;
    obj := [];
    var compiled := CompileFilter(e);
    if compiled.None? {
      return false, obj;
    }
    obj := compiled.value;
    ForwardLabelled(compiled.value);
    var stream := new Writer(buffer);
    stream.SerializeFilter(compiled.value);
    if stream.overflow {
      return false, obj;
    }
    ok := true;
    ghost var text := FilterText(obj);
    if |text| < buffer.Length {
      ghost var rest := buffer[|text| + 1..];
      assert buffer[..] == text + "\0" + rest;
      FilterRoundTrip(obj, rest);
      if |obj| < 0x100 {
        forall v: View | OthersTyped(v) && AllSettled(e, v)
          ensures Accepts(CanonAll(obj), Jump(0), v) == ExprMeaning(e, v)
        {
          Reloads(e, obj, v);
        }
      }
    }
  }
}
