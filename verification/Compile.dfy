/** From an expression to a filter object: flattening to tests and jumps, then emission. */
module Compile {
  import opened Words
  import opened Fields
  import opened Filter
  import opened Simplify
  import opened Split
  import opened SplitEvent
  import opened Walk

  /** A flattened test; its labels name earlier, that is smaller, stack positions. */
  datatype Node = Node(atom: Atom, succ: Label, fail: Label)

  predicate Descending(stack: seq<Node>) {
    forall i :: 0 <= i < |stack| ==> InObject(stack[i].succ, i) && InObject(stack[i].fail, i)
  }

  /** Running the flattened tests from a label. */
  predicate Runs(stack: seq<Node>, l: Label, v: View)
    requires Descending(stack) && InObject(l, |stack|)
    decreases if l.Jump? then l.target + 1 else 0
  {
    match l
    case Accept => true
    case Reject => false
    case Jump(i) => Runs(stack, if Evaluates(stack[i].atom, v) then stack[i].succ else stack[i].fail, v)
  }

  /** Pushing more tests does not change what a label means. */
  lemma {:induction false} RunsExtend(stack: seq<Node>, more: seq<Node>, l: Label, v: View)
    requires Descending(stack) && Descending(more) && stack <= more && InObject(l, |stack|)
    ensures Runs(more, l, v) == Runs(stack, l, v)
    decreases if l.Jump? then l.target + 1 else 0
  {
    if l.Jump? {
      var node := stack[l.target];
      assert more[l.target] == node;
      RunsExtend(stack, more, if Evaluates(node.atom, v) then node.succ else node.fail, v);
    }
  }

  /** A folded test whose outcome is fixed takes no room. */
  predicate IsConstant(a: Atom) {
    a.test == EQ && a.left == True
  }

  function Size(e: Expr): nat {
    match e
    case Leaf(a) => if IsConstant(SimplifyTest(a)) then 0 else 1
    case And(l, r) => Size(l) + Size(r)
    case Or(l, r) => Size(l) + Size(r)
    case Choice(c, y, n) => Size(c) + Size(y) + Size(n)
  }

  ghost predicate Entry(stack: seq<Node>, entry: Label, e: Expr, succ: Label, fail: Label)
    requires Descending(stack) && InObject(entry, |stack|) && InObject(succ, |stack|) && InObject(fail, |stack|)
  {
    forall v: View :: Runs(stack, entry, v) == if Folded(e, v) then Runs(stack, succ, v) else Runs(stack, fail, v)
  }

  lemma EntryExtend(stack: seq<Node>, more: seq<Node>, entry: Label, e: Expr, succ: Label, fail: Label)
    requires Descending(stack) && Descending(more) && stack <= more
    requires InObject(entry, |stack|) && InObject(succ, |stack|) && InObject(fail, |stack|)
    requires Entry(stack, entry, e, succ, fail)
    ensures Entry(more, entry, e, succ, fail)
  {
    forall v: View
      ensures Runs(more, entry, v) == if Folded(e, v) then Runs(more, succ, v) else Runs(more, fail, v)
    {
      RunsExtend(stack, more, entry, v);
      RunsExtend(stack, more, succ, v);
      RunsExtend(stack, more, fail, v);
    }
  }

  /** A constant test is one of its two labels already. */
  lemma ConstantEntry(stack: seq<Node>, a: Atom, succ: Label, fail: Label)
    requires Descending(stack) && InObject(succ, |stack|) && InObject(fail, |stack|)
    requires IsConstant(SimplifyTest(a))
    ensures Entry(stack, if SimplifyTest(a).arg[0] != 0 then succ else fail, Leaf(a), succ, fail)
  {
    if Verdict(a).None? {
      SurvivorIsField(a);
      assert false;
    }
    hide Verdict;
  }

  lemma PushedEntry(stack: seq<Node>, a: Atom, succ: Label, fail: Label)
    requires Descending(stack) && InObject(succ, |stack|) && InObject(fail, |stack|)
    ensures Descending(stack + [Node(SimplifyTest(a), succ, fail)])
    ensures Entry(stack + [Node(SimplifyTest(a), succ, fail)], Jump(|stack|), Leaf(a), succ, fail)
  {
    hide SimplifyTest, Evaluates;
  }

  /** Every test on the stack came out of folding, and none of them is constant. */
  ghost predicate Simplified(a: Atom) {
    exists b: Atom :: SimplifyTest(b) == a && !IsConstant(a)
  }

  predicate VarFits(layer: Layer, x: Var) {
    x.At? ==> ValidField(layer, x.field)
  }

  /** The expression tests only fields of the layer. */
  predicate ExprFits(layer: Layer, e: Expr) {
    match e
    case Leaf(a) => VarFits(layer, a.left)
    case And(l, r) => ExprFits(layer, l) && ExprFits(layer, r)
    case Or(l, r) => ExprFits(layer, l) && ExprFits(layer, r)
    case Choice(c, y, n) => ExprFits(layer, c) && ExprFits(layer, y) && ExprFits(layer, n)
  }

  predicate StackFits(layer: Layer, stack: seq<Node>) {
    forall i :: 0 <= i < |stack| ==> VarFits(layer, stack[i].atom.left)
  }

  /** A layer that has a header's field has the header's flag. */
  lemma SimplifyFits(layer: Layer, a: Atom)
    requires VarFits(layer, a.left)
    ensures VarFits(layer, SimplifyTest(a).left)
  {
    hide Verdict;
  }

  class Flattener {
    var stack: seq<Node>

    constructor ()
      ensures stack == []
    {
      stack := [];
    }

    ghost predicate Valid()
      reads this
    {
      && |stack| <= MAXLEN && Descending(stack)
      && forall i :: 0 <= i < |stack| ==> Simplified(stack[i].atom)
    }

    /** Flattens right to left, so that the labels a test jumps to exist before it.  Fails
        exactly when the tests do not fit, or a label is itself a failure. */
    method Flatten(e: Expr, succ: Option<Label>, fail: Option<Label>) returns (entry: Option<Label>)
      requires Valid()
      requires succ.Some? ==> InObject(succ.value, |stack|)
      requires fail.Some? ==> InObject(fail.value, |stack|)
      modifies this
      ensures Valid() && old(stack) <= stack
      ensures entry.None? <==> succ.None? || fail.None? || old(|stack|) + Size(e) > MAXLEN
      ensures succ.Some? && fail.Some? && entry.None? ==> |stack| == MAXLEN
      ensures entry.Some? ==> InObject(entry.value, |stack|) && |stack| == old(|stack|) + Size(e)
      ensures entry.Some? ==> Entry(stack, entry.value, e, succ.value, fail.value)
      ensures forall layer :: StackFits(layer, old(stack)) && ExprFits(layer, e) ==> StackFits(layer, stack)
      decreases e
    {
      hide Runs, Evaluates, SimplifyTest, VarFits;
      if succ.None? || fail.None? {
        return None;
      }
      match e
      case And(l, r) =>
        var right := Flatten(r, succ, fail);
        ghost var below := stack;
        entry := Flatten(l, right, fail);
        if entry.Some? {
          EntryExtend(below, stack, right.value, r, succ.value, fail.value);
        }
      case Or(l, r) =>
        var right := Flatten(r, succ, fail);
        ghost var below := stack;
        entry := Flatten(l, succ, right);
        if entry.Some? {
          EntryExtend(below, stack, right.value, r, succ.value, fail.value);
        }
      case Choice(c, y, n) =>
        var no := Flatten(n, succ, fail);
        ghost var below := stack;
        var yes := Flatten(y, succ, fail);
        ghost var middle := stack;
        entry := Flatten(c, yes, no);
        if entry.Some? {
          EntryExtend(below, stack, no.value, n, succ.value, fail.value);
          EntryExtend(middle, stack, yes.value, y, succ.value, fail.value);
        }
      case Leaf(a) =>
        var t := SimplifyTest(a);
        if IsConstant(t) {
          ConstantEntry(stack, a, succ.value, fail.value);
          entry := if t.arg[0] != 0 then succ else fail;
        } else if |stack| >= MAXLEN {
          entry := None;
        } else {
          PushedEntry(stack, a, succ.value, fail.value);
          forall layer | VarFits(layer, a.left) { SimplifyFits(layer, a); }
          entry := Some(Jump(|stack|));
          stack := stack + [Node(t, succ.value, fail.value)];
        }
    }
  }

  /** What the lowering asks of a test and only the compiler guarantees. */
  predicate FromCompiler(f: Field, neg: bool, arg: Words) {
    && (neg ==> FieldBounds(f).None? || FieldBounds(f).value.negLo)
    && (f == IP_SRCADDR || f == IP_DSTADDR ==> IsMapped(arg))
    && (IsTwoWord(f) ==> arg[2] == arg[3] == 0)
  }

  lemma SurvivorFromCompiler(a: Atom)
    requires Verdict(a).None? && a.left.At?
    ensures FromCompiler(a.left.field, a.neg, a.arg)
  {
    hide Verdict;
    if FieldBounds(a.left.field).Some? {
      SurvivorInRange(a);
      InRangeFromCompiler(a.left.field, a.neg, a.arg);
    }
  }

  lemma InRangeFromCompiler(f: Field, neg: bool, arg: Words)
    requires FieldBounds(f).Some? && Within(FieldBounds(f).value, neg, arg)
    ensures FromCompiler(f, neg, arg)
  {
    MappedIsInterval(arg);
    if IsTwoWord(f) {
      assert Val(arg) < B64;
    }
  }

  lemma SimplifiedFromCompiler(a: Atom)
    requires Simplified(a)
    ensures a.left.At? && FromCompiler(a.left.field, a.neg, a.arg)
  {
    hide Verdict, FromCompiler, SimplifyTest;
    var b :| SimplifyTest(b) == a && !IsConstant(a);
    if Verdict(b).None? {
      SurvivorIsField(b);
      SurvivorFromCompiler(b);
      SurvivorStays(b);
    } else {
      FoldedFromCompiler(b);
    }
  }

  lemma SurvivorStays(b: Atom)
    requires Verdict(b).None?
    ensures SimplifyTest(b) == b
  {
    hide Verdict;
  }

  lemma FoldedFromCompiler(b: Atom)
    requires Verdict(b).Some? && !IsConstant(SimplifyTest(b))
    ensures var a := SimplifyTest(b); a.left.At? && FromCompiler(a.left.field, a.neg, a.arg)
  {
    hide Verdict, FieldBounds;
  }

  /** A label of the stack as an instruction number; the emitted object lists the stack from `offset` down. */
  function Relabel(l: Label, offset: nat): Label
    requires InObject(l, offset + 1)
  {
    if l.Jump? then Jump(offset - l.target) else l
  }

  /** The instruction for a test; an array field carries its index in word 1. */
  function EmitTest(node: Node, offset: nat): Insn
    requires node.atom.left.At? && InObject(node.succ, offset + 1) && InObject(node.fail, offset + 1)
  {
    var a := node.atom;
    Insn(a.left.field, a.test, a.neg, if IsArray(a.left.field) then a.arg[1 := a.left.index] else a.arg,
         Relabel(node.succ, offset), Relabel(node.fail, offset))
  }

  /** An emitted instruction tests what the flattened test did. */
  lemma EmitTestTruth(node: Node, offset: nat, v: View)
    requires node.atom.left.At? && InObject(node.succ, offset + 1) && InObject(node.fail, offset + 1)
    requires OthersTyped(v)
    ensures Truth(EmitTest(node, offset), v) == Evaluates(node.atom, v)
  {
    var a := node.atom;
    var insn := EmitTest(node, offset);
    ValuesTyped(v, a.left.field, a.left.index);
    if !IsArray(a.left.field) {
      ValuesTyped(v, a.left.field, a.arg[1]);
    }
    hide OthersTyped, FieldValue;
  }

  /** `obj` holds the tests of `stack` from `entry` down. */
  predicate Emitted(stack: seq<Node>, entry: nat, obj: seq<Insn>) {
    && entry < |stack| && Descending(stack) && |obj| == entry + 1
    && (forall i :: 0 <= i <= entry ==> stack[i].atom.left.At?)
    && (forall i :: 0 <= i <= entry ==> obj[i] == EmitTest(stack[entry - i], entry))
  }

  lemma EmittedForward(stack: seq<Node>, entry: nat, obj: seq<Insn>)
    requires Emitted(stack, entry, obj)
    ensures Forward(obj)
  {
  }

  lemma {:induction false} EmittedRuns(stack: seq<Node>, entry: nat, obj: seq<Insn>, l: Label, v: View)
    requires Emitted(stack, entry, obj) && Forward(obj) && InObject(l, entry + 1) && OthersTyped(v)
    ensures Accepts(obj, Relabel(l, entry), v) == Runs(stack, l, v)
    decreases if l.Jump? then l.target + 1 else 0
  {
    hide OthersTyped, Truth, Evaluates;
    if l.Jump? {
      var node := stack[l.target];
      assert obj[entry - l.target] == EmitTest(node, entry);
      EmitTestTruth(node, entry, v);
      EmittedRuns(stack, entry, obj, if Evaluates(node.atom, v) then node.succ else node.fail, v);
    }
  }

  lemma ConstantObject(stack: seq<Node>, l: Label, obj: seq<Insn>, v: View)
    requires Descending(stack) && !l.Jump? && obj == [Insn(ZERO, EQ, false, ZEROES, l, l)]
    ensures Accepts(obj, Jump(0), v) == Runs(stack, l, v)
  {
  }

  lemma EmittedAccepts(stack: seq<Node>, entry: nat, obj: seq<Insn>)
    requires Emitted(stack, entry, obj)
    ensures Forward(obj)
    ensures forall v: View :: OthersTyped(v) ==> Accepts(obj, Jump(0), v) == Runs(stack, Jump(entry), v)
  {
    hide OthersTyped, Accepts, Runs;
    EmittedForward(stack, entry, obj);
    forall v: View | OthersTyped(v)
      ensures Accepts(obj, Jump(0), v) == Runs(stack, Jump(entry), v)
    {
      EmittedRuns(stack, entry, obj, Jump(entry), v);
    }
  }

  lemma ZeroFits(layer: Layer)
    ensures ValidField(layer, ZERO)
  {
  }

  /** Emits the stack from the entry test down, or one always-true test for a constant. */
  method EmitFilter(stack: seq<Node>, entry: Label) returns (obj: seq<Insn>)
    requires Descending(stack) && InObject(entry, |stack|) && |stack| <= MAXLEN
    requires forall i :: 0 <= i < |stack| ==> Simplified(stack[i].atom)
    ensures 1 <= |obj| <= MAXLEN && Forward(obj) && (|obj| == 1 || |obj| <= |stack|)
    ensures forall v: View :: OthersTyped(v) ==> Accepts(obj, Jump(0), v) == Runs(stack, entry, v)
    ensures forall i :: 0 <= i < |obj| ==> FromCompiler(obj[i].field, obj[i].neg, obj[i].arg)
    ensures forall layer :: StackFits(layer, stack) ==> FieldsValid(obj, layer)
  {
    hide OthersTyped, Simplified, Accepts, Runs, FieldBounds, ValidField;
    if !entry.Jump? {
      obj := [Insn(ZERO, EQ, false, ZEROES, entry, entry)];
      forall v: View { ConstantObject(stack, entry, obj, v); }
      forall layer ensures ValidField(layer, ZERO) { ZeroFits(layer); }
      return;
    }
    var len := entry.target;
    forall i | 0 <= i < |stack|
      ensures stack[i].atom.left.At?
      ensures FromCompiler(stack[i].atom.left.field, stack[i].atom.neg, stack[i].atom.arg)
    {
      SimplifiedFromCompiler(stack[i].atom);
    }
    obj := [];
    for i := 0 to len + 1
      invariant |obj| == i
      invariant forall k :: 0 <= k < i ==> obj[k] == EmitTest(stack[len - k], len)
      invariant forall k :: 0 <= k < i ==> FromCompiler(obj[k].field, obj[k].neg, obj[k].arg)
    {
      obj := obj + [EmitTest(stack[len - i], len)];
    }
    EmittedAccepts(stack, len, obj);
  }

  lemma CompiledIsPlain(insn: Insn)
    requires FromCompiler(insn.field, insn.neg, insn.arg)
    ensures Plain(insn) && PlainEvent(insn)
  {
  }

  /** The compiler's back end.  It refuses an expression exactly when its folded tests do
      not fit; otherwise the object decides every typed input as the folded expression
      does, hence as the expression reads wherever folding is settled, and it has the
      form the lowering to kernel rules asks for. */
  method CompileFilter(e: Expr) returns (obj: Option<seq<Insn>>)
    ensures obj.None? <==> Size(e) > MAXLEN
    ensures obj.Some? ==> |obj.value| == 1 || |obj.value| <= Size(e)
    ensures obj.Some? ==> 1 <= |obj.value| <= MAXLEN && Lowerable(false, obj.value) && Lowerable(true, obj.value)
    ensures obj.Some? ==> forall v: View :: OthersTyped(v) ==> Accepts(obj.value, Jump(0), v) == Folded(e, v)
    ensures obj.Some? ==> forall v: View :: OthersTyped(v) && AllSettled(e, v) ==>
              Accepts(obj.value, Jump(0), v) == ExprMeaning(e, v)
    ensures obj.Some? ==> forall i :: 0 <= i < |obj.value| ==>
              FromCompiler(obj.value[i].field, obj.value[i].neg, obj.value[i].arg)
    ensures obj.Some? ==> forall layer :: ExprFits(layer, e) ==> FieldsValid(obj.value, layer)
  {
    hide OthersTyped, Accepts, FromCompiler, Plain, PlainEvent, AllSettled, ExprMeaning, Folded, Simplified;
    hide Evaluates, ExprFits, FieldsValid;
    var flattener := new Flattener();
    var entry := flattener.Flatten(e, Some(Accept), Some(Reject));
    if entry.None? {
      return None;
    }
    var insns := EmitFilter(flattener.stack, entry.value);
    forall i | 0 <= i < |insns|
      ensures Plain(insns[i]) && PlainEvent(insns[i])
    {
      CompiledIsPlain(insns[i]);
    }
    forall v: View | OthersTyped(v) && AllSettled(e, v)
      ensures Folded(e, v) == ExprMeaning(e, v)
    {
      FoldedMeans(e, v);
    }
    obj := Some(insns);
  }

  /** Compiling an expression and running the object gives the expression's meaning. */
  method CompileThenExecute(e: Expr, layer: Layer, v: View) returns (result: int)
    requires ExprFits(layer, e) && OthersTyped(v) && AllSettled(e, v) && Size(e) <= MAXLEN
    ensures result == if ExprMeaning(e, v) then 1 else 0
  {
    hide OthersTyped, Accepts, FromCompiler, Plain, PlainEvent, AllSettled, ExprMeaning, Folded, ExprFits, FieldsValid;
    var obj := CompileFilter(e);
    result := ExecuteFilter(obj.value, layer, v);
  }
}
