/** The walk over a compiled filter that turns every accepting path into cubes. */
module Walk {
  import opened Fields
  import opened Filter
  import opened Cube
  import opened Split
  import opened SplitEvent

  const MAX_STATES := 65536
  const MAX_CUBES := 256

  /** Forward jumps only, and no negative literal where the lowering takes it as unsigned. */
  predicate Lowerable(eventMode: bool, obj: seq<Insn>) {
    && Forward(obj)
    && (forall i :: 0 <= i < |obj| ==> if eventMode then PlainEvent(obj[i]) else Plain(obj[i]))
  }

  predicate GuessesFamilies(obj: seq<Insn>) {
    exists i :: 0 <= i < |obj| && GuessesFamily(obj[i])
  }

  /** The inputs a filter's lowering is judged on. */
  predicate AgreesWith(eventMode: bool, obj: seq<Insn>, s: Subject) {
    if eventMode then AgreeingEvent(s)
    else AgreeingPacket(s) && (GuessesFamilies(obj) ==> Unmapped(s.attrs))
  }

  predicate LiteralsFit(obj: seq<Insn>) {
    forall i :: 0 <= i < |obj| ==> FittingLiteral(obj[i])
  }

  predicate LiteralsMapped(obj: seq<Insn>) {
    forall i :: 0 <= i < |obj| ==> MappedLiteral(obj[i])
  }

  predicate LiteralsLow(obj: seq<Insn>) {
    forall i :: 0 <= i < |obj| ==> LowLiteral(obj[i])
  }

  predicate LiteralsHigh(obj: seq<Insn>) {
    forall i :: 0 <= i < |obj| ==> HighLiteral(obj[i])
  }

  /** No literal touches the lower end of `::ffff:0:0/96`, or none touches its upper end. */
  predicate LiteralsOffBlock(obj: seq<Insn>) {
    LiteralsLow(obj) || LiteralsHigh(obj)
  }

  predicate LiteralsClean(obj: seq<Insn>) {
    LiteralsMapped(obj) && LiteralsOffBlock(obj)
  }

  /** What holds of every cube of a walk over `obj`. */
  predicate Walked(eventMode: bool, obj: seq<Insn>, c: Cube) {
    && Shaped(eventMode, c)
    && (!eventMode && LiteralsFit(obj) ==> HolesFit(c))
    && (!eventMode && LiteralsMapped(obj) ==> Shaped4(c))
    && (!eventMode && LiteralsLow(obj) ==> LowClear(c))
    && (!eventMode && LiteralsHigh(obj) ==> HighClear(c))
    && (eventMode && LiteralsLow(obj) ==> StartsElsewhere(c))
    && (eventMode && LiteralsHigh(obj) ==> EndsElsewhere(c))
  }

  lemma WalkedValid(eventMode: bool, obj: seq<Insn>, c: Cube)
    requires Walked(eventMode, obj, c)
    ensures c.Valid()
  {
  }

  lemma WalkedStep(eventMode: bool, obj: seq<Insn>, i: nat, c: Cube, out: seq<Cube>)
    requires i < |obj| && Walked(eventMode, obj, c) && Steps(eventMode, c, out)
    requires if eventMode then StayOffBlock(obj[i], c, out) else StayClean(obj[i], c, out)
    ensures forall k :: 0 <= k < |out| ==> Walked(eventMode, obj, out[k])
  {
    hide HolesFit, Shaped4, LowClear, HighClear, StartsElsewhere, EndsElsewhere;
    hide FittingLiteral, MappedLiteral, LowLiteral, HighLiteral, Cube.Valid;
    forall k | 0 <= k < |out| ensures Walked(eventMode, obj, out[k]) {
      assert !eventMode ==> StaysClean(obj[i], c, out[k]);
      assert eventMode ==> StaysOffBlock(obj[i], c, out[k]);
    }
  }

  /** Every input of `c` accepted from `l` lies in one of the cubes. */
  ghost predicate Captured(eventMode: bool, obj: seq<Insn>, l: Label, c: Cube, cubes: seq<Cube>)
    requires Forward(obj) && InObject(l, |obj|)
  {
    forall s: Subject :: AgreesWith(eventMode, obj, s) && c.In(s.attrs) && Accepts(obj, l, s.view) ==>
      Somewhere(cubes, s)
  }

  predicate Somewhere(cubes: seq<Cube>, s: Subject) {
    exists k :: 0 <= k < |cubes| && cubes[k].In(s.attrs)
  }

  /** A cube still exact holds only inputs of `c` accepted from `l`. */
  ghost predicate Faithful(eventMode: bool, obj: seq<Insn>, l: Label, c: Cube, cubes: seq<Cube>)
    requires Forward(obj) && InObject(l, |obj|)
  {
    forall k, s: Subject ::
      0 <= k < |cubes| && cubes[k].exact && AgreesWith(eventMode, obj, s) && cubes[k].In(s.attrs) ==>
      c.exact && c.In(s.attrs) && Accepts(obj, l, s.view)
  }

  /** The same for one branch of a test: the test came out as `positive` first. */
  ghost predicate BranchCaptured(eventMode: bool, obj: seq<Insn>, insn: Insn, positive: bool, c: Cube, cubes: seq<Cube>)
    requires Forward(obj) && InObject(Next(insn, positive), |obj|)
  {
    forall s: Subject ::
      AgreesWith(eventMode, obj, s) && c.In(s.attrs) && Truth(insn, s.view) == positive ==>
      Accepts(obj, Next(insn, positive), s.view) ==> Somewhere(cubes, s)
  }

  ghost predicate BranchFaithful(eventMode: bool, obj: seq<Insn>, insn: Insn, positive: bool, c: Cube, cubes: seq<Cube>)
    requires Forward(obj) && InObject(Next(insn, positive), |obj|)
  {
    forall k, s: Subject ::
      0 <= k < |cubes| && cubes[k].exact && AgreesWith(eventMode, obj, s) && cubes[k].In(s.attrs) ==>
      c.exact && c.In(s.attrs) && Truth(insn, s.view) == positive && Accepts(obj, Next(insn, positive), s.view)
  }

  /** Several cubes continued at the same label. */
  ghost predicate AllCaptured(eventMode: bool, obj: seq<Insn>, l: Label, out: seq<Cube>, cubes: seq<Cube>)
    requires Forward(obj) && InObject(l, |obj|)
  {
    forall k :: 0 <= k < |out| ==> Captured(eventMode, obj, l, out[k], cubes)
  }

  ghost predicate AllFaithful(eventMode: bool, obj: seq<Insn>, l: Label, out: seq<Cube>, cubes: seq<Cube>)
    requires Forward(obj) && InObject(l, |obj|)
  {
    forall m :: 0 <= m < |cubes| ==> exists k :: 0 <= k < |out| && Faithful(eventMode, obj, l, out[k], [cubes[m]])
  }

  function Next(insn: Insn, positive: bool): Label {
    if positive then insn.success else insn.failure
  }

  /** What one outcome of a test leaves of a cube, on either kind of layer. */
  function SplitCubes(eventMode: bool, insn: Insn, positive: bool, c: Cube): seq<Cube> {
    if insn.field == ZERO then ZeroCubes(insn, positive, c)
    else if eventMode then EventCubes(insn, positive, c)
    else PacketCubes(insn, positive, c)
  }

  function Depth(obj: seq<Insn>, l: Label): nat
    requires InObject(l, |obj|)
  {
    if l.Jump? then |obj| - l.target else 0
  }

  /** The cubes of all paths of a cube from `l` to ACCEPT, first the successful tests. */
  function CubesFrom(eventMode: bool, obj: seq<Insn>, l: Label, c: Cube): seq<Cube>
    requires Forward(obj) && InObject(l, |obj|)
    decreases Depth(obj, l), 0
  {
    match l
    case Accept => [c]
    case Reject => []
    case Jump(i) =>
      CubesFromAll(eventMode, obj, obj[i].success, SplitCubes(eventMode, obj[i], true, c)) +
      CubesFromAll(eventMode, obj, obj[i].failure, SplitCubes(eventMode, obj[i], false, c))
  }

  function CubesFromAll(eventMode: bool, obj: seq<Insn>, l: Label, out: seq<Cube>): seq<Cube>
    requires Forward(obj) && InObject(l, |obj|)
    decreases Depth(obj, l), |out|
  {
    if out == [] then []
    else CubesFromAll(eventMode, obj, l, out[..|out| - 1]) + CubesFrom(eventMode, obj, l, out[|out| - 1])
  }

  /** How many tests those paths visit. */
  function Visits(eventMode: bool, obj: seq<Insn>, l: Label, c: Cube): nat
    requires Forward(obj) && InObject(l, |obj|)
    decreases Depth(obj, l), 0
  {
    match l
    case Accept => 0
    case Reject => 0
    case Jump(i) =>
      1 + VisitsAll(eventMode, obj, obj[i].success, SplitCubes(eventMode, obj[i], true, c))
      + VisitsAll(eventMode, obj, obj[i].failure, SplitCubes(eventMode, obj[i], false, c))
  }

  function VisitsAll(eventMode: bool, obj: seq<Insn>, l: Label, out: seq<Cube>): nat
    requires Forward(obj) && InObject(l, |obj|)
    decreases Depth(obj, l), |out|
  {
    if out == [] then 0
    else VisitsAll(eventMode, obj, l, out[..|out| - 1]) + Visits(eventMode, obj, l, out[|out| - 1])
  }

  /** The cubes of a whole filter, and whether they can be found within the budget. */
  function CubesOf(eventMode: bool, obj: seq<Insn>): seq<Cube>
    requires 0 < |obj| && Forward(obj)
  {
    CubesFrom(eventMode, obj, Jump(0), Init())
  }

  predicate WithinBudget(eventMode: bool, obj: seq<Insn>)
    requires 0 < |obj| && Forward(obj)
  {
    && Visits(eventMode, obj, Jump(0), Init()) <= MAX_STATES
    && |CubesOf(eventMode, obj)| <= MAX_CUBES
  }

  /** The cubes for one outcome of one test, on either kind of layer. */
  method SplitOn(eventMode: bool, insn: Insn, positive: bool, c: Cube) returns (out: seq<Cube>)
    requires c.Valid()
    ensures Steps(eventMode, c, out) && (if eventMode then StayOffBlock(insn, c, out) else StayClean(insn, c, out))
    ensures (if eventMode then PlainEvent(insn) else Plain(insn)) ==>
              Complete(eventMode, insn, positive, c, out) && Precise(eventMode, insn, positive, c, out)
    ensures out == SplitCubes(eventMode, insn, positive, c)
  {
    hide Complete, Precise, StaysClean, PacketCubes, EventCubes;
    if insn.field == ZERO {
      out := ZeroBranch(eventMode, insn, positive, c);
      KeptStaysClean(insn, c, out);
    } else if eventMode {
      out := EventBranch(insn, positive, c);
    } else {
      out := PacketBranch(insn, positive, c);
    }
  }

  /** From "some of `out`, then accepted" to the branch as a whole. */
  lemma BranchFromSplit(eventMode: bool, obj: seq<Insn>, i: nat, positive: bool, c: Cube, out: seq<Cube>,
                        cubes: seq<Cube>)
    requires Forward(obj) && i < |obj| && Complete(eventMode, obj[i], positive, c, out)
    requires AllCaptured(eventMode, obj, Next(obj[i], positive), out, cubes)
    ensures BranchCaptured(eventMode, obj, obj[i], positive, c, cubes)
  {
    hide Cube.In, Truth, Accepts, AgreeingPacket, AgreeingEvent, Unmapped;
    forall s: Subject |
      AgreesWith(eventMode, obj, s) && c.In(s.attrs) && Truth(obj[i], s.view) == positive &&
      Accepts(obj, Next(obj[i], positive), s.view)
      ensures Somewhere(cubes, s)
    {
      assert Agrees(eventMode, obj[i], s);
      var k :| 0 <= k < |out| && out[k].In(s.attrs);
      assert Captured(eventMode, obj, Next(obj[i], positive), out[k], cubes);
    }
  }

  lemma BranchFaithfulFromSplit(eventMode: bool, obj: seq<Insn>, i: nat, positive: bool, c: Cube, out: seq<Cube>,
                                cubes: seq<Cube>)
    requires Forward(obj) && i < |obj| && Precise(eventMode, obj[i], positive, c, out)
    requires AllFaithful(eventMode, obj, Next(obj[i], positive), out, cubes)
    ensures BranchFaithful(eventMode, obj, obj[i], positive, c, cubes)
  {
    hide Cube.In, Truth, Accepts, AgreeingPacket, AgreeingEvent, Unmapped;
    forall m, s: Subject | 0 <= m < |cubes| && cubes[m].exact && AgreesWith(eventMode, obj, s) && cubes[m].In(s.attrs)
      ensures c.exact && c.In(s.attrs) && Truth(obj[i], s.view) == positive
      ensures Accepts(obj, Next(obj[i], positive), s.view)
    {
      assert Agrees(eventMode, obj[i], s);
      var k :| 0 <= k < |out| && Faithful(eventMode, obj, Next(obj[i], positive), out[k], [cubes[m]]);
      assert [cubes[m]][0] == cubes[m];
    }
  }

  /** The two branches of a test together are the walk from it. */
  lemma WalkFromBranches(eventMode: bool, obj: seq<Insn>, ip: nat, c: Cube, yes: seq<Cube>, no: seq<Cube>)
    requires Forward(obj) && ip < |obj|
    requires BranchFaithful(eventMode, obj, obj[ip], true, c, yes)
    requires BranchFaithful(eventMode, obj, obj[ip], false, c, no)
    ensures Faithful(eventMode, obj, Jump(ip), c, yes + no)
    ensures BranchCaptured(eventMode, obj, obj[ip], true, c, yes) ==>
              BranchCaptured(eventMode, obj, obj[ip], false, c, no) ==> Captured(eventMode, obj, Jump(ip), c, yes + no)
  {
    hide Cube.In, Truth, AgreeingPacket, AgreeingEvent, Unmapped;
    if BranchCaptured(eventMode, obj, obj[ip], true, c, yes) && BranchCaptured(eventMode, obj, obj[ip], false, c, no) {
      forall s: Subject | AgreesWith(eventMode, obj, s) && c.In(s.attrs) && Accepts(obj, Jump(ip), s.view)
        ensures Somewhere(yes + no, s)
      {
        if Truth(obj[ip], s.view) {
          SomewhereLeft(yes, no, s);
        } else {
          SomewhereRight(yes, no, s);
        }
      }
    }
  }

  lemma SomewhereLeft(a: seq<Cube>, b: seq<Cube>, s: Subject)
    requires Somewhere(a, s)
    ensures Somewhere(a + b, s)
  {
    hide Cube.In;
    var k :| 0 <= k < |a| && a[k].In(s.attrs);
    assert (a + b)[k] == a[k];
  }

  lemma SomewhereRight(a: seq<Cube>, b: seq<Cube>, s: Subject)
    requires Somewhere(b, s)
    ensures Somewhere(a + b, s)
  {
    hide Cube.In;
    var k :| 0 <= k < |b| && b[k].In(s.attrs);
    assert (a + b)[|a| + k] == b[k];
  }

  lemma CapturedMore(eventMode: bool, obj: seq<Insn>, l: Label, c: Cube, a: seq<Cube>, b: seq<Cube>)
    requires Forward(obj) && InObject(l, |obj|)
    ensures Captured(eventMode, obj, l, c, a) ==> Captured(eventMode, obj, l, c, a + b)
    ensures Captured(eventMode, obj, l, c, b) ==> Captured(eventMode, obj, l, c, a + b)
  {
    hide Cube.In, Accepts, AgreeingPacket, AgreeingEvent, Unmapped;
    forall s: Subject | Somewhere(a, s) ensures Somewhere(a + b, s) { SomewhereLeft(a, b, s); }
    forall s: Subject | Somewhere(b, s) ensures Somewhere(a + b, s) { SomewhereRight(a, b, s); }
  }

  lemma FaithfulEach(eventMode: bool, obj: seq<Insn>, l: Label, c: Cube, cubes: seq<Cube>)
    requires Forward(obj) && InObject(l, |obj|) && Faithful(eventMode, obj, l, c, cubes)
    ensures forall m :: 0 <= m < |cubes| ==> Faithful(eventMode, obj, l, c, [cubes[m]])
  {
    hide Cube.In, Accepts, AgreeingPacket, AgreeingEvent, Unmapped;
    forall m | 0 <= m < |cubes| ensures Faithful(eventMode, obj, l, c, [cubes[m]]) {
      assert [cubes[m]][0] == cubes[m];
    }
  }

  /** Emitting a cube at ACCEPT is exact. */
  lemma EmitOne(eventMode: bool, obj: seq<Insn>, c: Cube)
    requires Forward(obj)
    ensures Captured(eventMode, obj, Accept, c, [c]) && Faithful(eventMode, obj, Accept, c, [c])
  {
    hide Cube.In, AgreeingPacket, AgreeingEvent, Unmapped;
    assert [c][0] == c;
  }

  lemma NothingFaithful(eventMode: bool, obj: seq<Insn>, l: Label, c: Cube)
    requires Forward(obj) && InObject(l, |obj|)
    ensures Faithful(eventMode, obj, l, c, [])
  {
  }

  lemma NothingAccepted(eventMode: bool, obj: seq<Insn>, c: Cube)
    requires Forward(obj)
    ensures Captured(eventMode, obj, Reject, c, [])
  {
  }

  /** One more cube of a branch continued. */
  lemma LoopStep(eventMode: bool, obj: seq<Insn>, l: Label, out: seq<Cube>, i: nat, before: seq<Cube>, added: seq<Cube>)
    requires Forward(obj) && InObject(l, |obj|) && i < |out|
    requires AllFaithful(eventMode, obj, l, out[..i], before) && Faithful(eventMode, obj, l, out[i], added)
    ensures AllFaithful(eventMode, obj, l, out[..i + 1], before + added)
    ensures AllCaptured(eventMode, obj, l, out[..i], before) && Captured(eventMode, obj, l, out[i], added)
            ==> AllCaptured(eventMode, obj, l, out[..i + 1], before + added)
  {
    hide Captured, Faithful, Cube.In;
    forall k | 0 <= k <= i { CapturedMore(eventMode, obj, l, out[k], before, added); }
    FaithfulEach(eventMode, obj, l, out[i], added);
    forall m | 0 <= m < |before + added|
      ensures exists k :: 0 <= k <= i && Faithful(eventMode, obj, l, out[k], [(before + added)[m]])
    {
      if m < |before| {
        var k :| 0 <= k < i && Faithful(eventMode, obj, l, out[..i][k], [before[m]]);
        assert Faithful(eventMode, obj, l, out[k], [(before + added)[m]]);
      } else {
        assert Faithful(eventMode, obj, l, out[i], [(before + added)[m]]);
      }
    }
  }

  /** The part of `all` appended after `n` cubes. */
  function Fresh(all: seq<Cube>, n: nat): seq<Cube>
    requires n <= |all|
  {
    all[n..]
  }

  /** The state of a walk: the cubes found so far, the tests visited and whether the budget is spent. */
  datatype Progress = Progress(cubes: seq<Cube>, states: nat, overflow: bool)

  /** From `p` to `q` the walk visited `visits` tests and found `found`; it ran over the budget
      only because that much does not fit. */
  predicate Advanced(p: Progress, q: Progress, visits: nat, found: seq<Cube>) {
    && (p.overflow ==> q.overflow)
    && (!q.overflow ==> q.states == p.states + visits && q.cubes == p.cubes + found)
    && (q.overflow && !p.overflow ==> p.states + visits > MAX_STATES || |p.cubes| + |found| > MAX_CUBES)
  }

  lemma AdvancedTwice(p: Progress, q: Progress, r: Progress, v: nat, f: seq<Cube>, w: nat, g: seq<Cube>)
    requires Advanced(p, q, v, f) && Advanced(q, r, w, g)
    ensures Advanced(p, r, v + w, f + g)
  {
    assert p.cubes + f + g == p.cubes + (f + g);
  }

  lemma PlainHere(eventMode: bool, obj: seq<Insn>, i: nat)
    requires i < |obj|
    ensures Lowerable(eventMode, obj) ==> Forward(obj) && if eventMode then PlainEvent(obj[i]) else Plain(obj[i])
  {
  }

  lemma NoneYet(eventMode: bool, obj: seq<Insn>, l: Label, p: Progress)
    requires Forward(obj) && InObject(l, |obj|)
    ensures Advanced(p, p, VisitsAll(eventMode, obj, l, []), CubesFromAll(eventMode, obj, l, []))
    ensures AllCaptured(eventMode, obj, l, [], []) && AllFaithful(eventMode, obj, l, [], [])
  {
    assert p.cubes + [] == p.cubes;
  }

  lemma OneMore(eventMode: bool, obj: seq<Insn>, l: Label, out: seq<Cube>, i: nat, p: Progress, q: Progress,
                r: Progress)
    requires Forward(obj) && InObject(l, |obj|) && i < |out|
    requires Advanced(p, q, VisitsAll(eventMode, obj, l, out[..i]), CubesFromAll(eventMode, obj, l, out[..i]))
    requires Advanced(q, r, Visits(eventMode, obj, l, out[i]), CubesFrom(eventMode, obj, l, out[i]))
    ensures Advanced(p, r, VisitsAll(eventMode, obj, l, out[..i + 1]), CubesFromAll(eventMode, obj, l, out[..i + 1]))
  {
    hide Advanced, Visits, CubesFrom;
    var more := out[..i + 1];
    assert more[..|more| - 1] == out[..i] && more[|more| - 1] == out[i];
    AdvancedTwice(p, q, r, VisitsAll(eventMode, obj, l, out[..i]), CubesFromAll(eventMode, obj, l, out[..i]),
                  Visits(eventMode, obj, l, out[i]), CubesFrom(eventMode, obj, l, out[i]));
  }

  lemma BothBranches(eventMode: bool, obj: seq<Insn>, ip: nat, c: Cube, p: Progress, q: Progress, r: Progress)
    requires Forward(obj) && ip < |obj| && 0 < p.states
    requires var next, out := obj[ip].success, SplitCubes(eventMode, obj[ip], true, c);
             Advanced(p, q, VisitsAll(eventMode, obj, next, out), CubesFromAll(eventMode, obj, next, out))
    requires var next, out := obj[ip].failure, SplitCubes(eventMode, obj[ip], false, c);
             Advanced(q, r, VisitsAll(eventMode, obj, next, out), CubesFromAll(eventMode, obj, next, out))
    ensures Advanced(p.(states := p.states - 1), r,
                     Visits(eventMode, obj, Jump(ip), c), CubesFrom(eventMode, obj, Jump(ip), c))
  {
    hide SplitCubes, VisitsAll, CubesFromAll;
    var yes, no := SplitCubes(eventMode, obj[ip], true, c), SplitCubes(eventMode, obj[ip], false, c);
    AdvancedTwice(p, q, r, VisitsAll(eventMode, obj, obj[ip].success, yes),
                  CubesFromAll(eventMode, obj, obj[ip].success, yes), VisitsAll(eventMode, obj, obj[ip].failure, no),
                  CubesFromAll(eventMode, obj, obj[ip].failure, no));
  }

  /** The walk's context: the cubes found so far and the state budget. */
  class Context {
    const obj: seq<Insn>
    const eventMode: bool
    var cubes: seq<Cube>
    var states: nat
    var overflow: bool

    constructor (obj: seq<Insn>, eventMode: bool)
      ensures this.obj == obj && this.eventMode == eventMode
      ensures cubes == [] && states == 0 && !overflow
    {
      this.obj := obj;
      this.eventMode := eventMode;
      cubes := [];
      states := 0;
      overflow := false;
    }

    ghost predicate Valid()
      reads this
    {
      && (forall k :: 0 <= k < |cubes| ==> Walked(eventMode, obj, cubes[k]))
      && |cubes| <= MAX_CUBES && states <= (if overflow then MAX_STATES + 1 else MAX_STATES)
    }

    function Now(): Progress
      reads this
    {
      Progress(cubes, states, overflow)
    }

    /** Nothing found earlier is lost, and the budget only shrinks. */
    twostate predicate Grows()
      reads this
    {
      && old(|cubes|) <= |cubes| && cubes[..old(|cubes|)] == old(cubes)
      && old(states) <= states
      && (old(overflow) ==> overflow)
    }

    method Emit(c: Cube)
      requires Valid() && Walked(eventMode, obj, c)
      modifies this
      ensures Valid() && Grows() && states == old(states)
      ensures !overflow ==> cubes == old(cubes) + [c]
      ensures cubes == old(cubes) || cubes == old(cubes) + [c]
      ensures Advanced(old(Now()), Now(), 0, [c])
    {
      if |cubes| >= MAX_CUBES {
        overflow := true;
        return;
      }
      cubes := cubes + [c];
    }

    method Continue(next: Label, c: Cube)
      requires Valid() && Walked(eventMode, obj, c)
      modifies this
      ensures Valid() && Grows()
      ensures Lowerable(eventMode, obj) && InObject(next, |obj|) ==>
                && (!overflow ==> Captured(eventMode, obj, next, c, Fresh(cubes, old(|cubes|))))
                && Faithful(eventMode, obj, next, c, Fresh(cubes, old(|cubes|)))
      ensures Forward(obj) && InObject(next, |obj|) ==>
                Advanced(old(Now()), Now(), Visits(eventMode, obj, next, c), CubesFrom(eventMode, obj, next, c))
      decreases MAX_STATES + 1 - states, 1
    {
      hide Cube.In, Captured, Faithful, Walked, Cube.Valid;
      match next {
        case Accept =>
          Emit(c);
          if Lowerable(eventMode, obj) {
            EmitOne(eventMode, obj, c);
            NothingFaithful(eventMode, obj, next, c);
            assert Fresh(cubes, old(|cubes|)) == [c] || Fresh(cubes, old(|cubes|)) == [];
          }
        case Reject =>
          if Lowerable(eventMode, obj) {
            NothingFaithful(eventMode, obj, next, c);
            NothingAccepted(eventMode, obj, c);
            assert Fresh(cubes, old(|cubes|)) == [];
          }
        case Jump(target) =>
          Walk(target, c);
      }
    }

    method Branch(ip: nat, positive: bool, c: Cube)
      requires Valid() && Walked(eventMode, obj, c) && ip < |obj|
      modifies this
      ensures Valid() && Grows()
      ensures Lowerable(eventMode, obj) ==>
                && (!overflow ==> BranchCaptured(eventMode, obj, obj[ip], positive, c, Fresh(cubes, old(|cubes|))))
                && BranchFaithful(eventMode, obj, obj[ip], positive, c, Fresh(cubes, old(|cubes|)))
      ensures Forward(obj) ==>
                var next, out := Next(obj[ip], positive), SplitCubes(eventMode, obj[ip], positive, c);
                Advanced(old(Now()), Now(), VisitsAll(eventMode, obj, next, out),
                         CubesFromAll(eventMode, obj, next, out))
      decreases MAX_STATES + 1 - states, 2
    {
      hide Cube.In, Captured, Faithful, BranchCaptured, BranchFaithful, Complete, Precise, Truth, StaysClean;
      hide Cube.Valid;
      hide Walked, StaysOffBlock, SplitCubes, CubesFrom, CubesFromAll, Visits, VisitsAll, Advanced, Steps;
      hide AllCaptured, AllFaithful, Lowerable;
      WalkedValid(eventMode, obj, c);
      var out := SplitOn(eventMode, obj[ip], positive, c);
      var next := Next(obj[ip], positive);
      WalkedStep(eventMode, obj, ip, c, out);
      if Forward(obj) {
        NoneYet(eventMode, obj, next, Now());
      }
      assert out[..0] == [] && Fresh(cubes, old(|cubes|)) == [];
      PlainHere(eventMode, obj, ip);
      for i := 0 to |out|
        invariant Valid() && Grows()
        invariant Lowerable(eventMode, obj) && !overflow ==>
                    AllCaptured(eventMode, obj, next, out[..i], Fresh(cubes, old(|cubes|)))
        invariant Lowerable(eventMode, obj) ==>
                    AllFaithful(eventMode, obj, next, out[..i], Fresh(cubes, old(|cubes|)))
        invariant Forward(obj) ==>
                    Advanced(old(Now()), Now(), VisitsAll(eventMode, obj, next, out[..i]),
                             CubesFromAll(eventMode, obj, next, out[..i]))
      {
        ghost var before := Fresh(cubes, old(|cubes|));
        ghost var n := |cubes|;
        ghost var now := Now();
        Continue(next, out[i]);
        if Forward(obj) {
          OneMore(eventMode, obj, next, out, i, old(Now()), now, Now());
        }
        ghost var added := Fresh(cubes, n);
        assert Fresh(cubes, old(|cubes|)) == before + added;
        if Lowerable(eventMode, obj) {
          LoopStep(eventMode, obj, next, out, i, before, added);
        }
      }
      assert out[..|out|] == out;
      if Lowerable(eventMode, obj) {
        ghost var found := Fresh(cubes, old(|cubes|));
        BranchFaithfulFromSplit(eventMode, obj, ip, positive, c, out, found);
        if !overflow {
          BranchFromSplit(eventMode, obj, ip, positive, c, out, found);
        }
      }
    }

    method Walk(ip: nat, c: Cube)
      requires Valid() && Walked(eventMode, obj, c)
      modifies this
      ensures Valid() && Grows()
      ensures Lowerable(eventMode, obj) && ip < |obj| ==>
                && (!overflow ==> Captured(eventMode, obj, Jump(ip), c, Fresh(cubes, old(|cubes|))))
                && Faithful(eventMode, obj, Jump(ip), c, Fresh(cubes, old(|cubes|)))
      ensures Forward(obj) && ip < |obj| ==>
                Advanced(old(Now()), Now(), Visits(eventMode, obj, Jump(ip), c), CubesFrom(eventMode, obj, Jump(ip), c))
      decreases MAX_STATES + 1 - states, 0
    {
      hide Cube.In, Captured, Faithful, BranchCaptured, BranchFaithful, Truth, Walked, Cube.Valid;
      hide SplitCubes, CubesFromAll, VisitsAll;
      if Lowerable(eventMode, obj) && ip < |obj| {
        NothingFaithful(eventMode, obj, Jump(ip), c);
      }
      assert Fresh(cubes, |cubes|) == [];
      if overflow {
        return;
      }
      if ip >= |obj| {
        overflow := true;
        return;
      }
      states := states + 1;
      if states > MAX_STATES {
        overflow := true;
        return;
      }
      ghost var now := Now();
      Branch(ip, true, c);
      ghost var mid := Now();
      ghost var n := |cubes|;
      ghost var yes := Fresh(cubes, old(|cubes|));
      Branch(ip, false, c);
      ghost var no := Fresh(cubes, n);
      assert Fresh(cubes, old(|cubes|)) == yes + no;
      if Forward(obj) {
        BothBranches(eventMode, obj, ip, c, now, mid, Now());
      }
      if Lowerable(eventMode, obj) {
        WalkFromBranches(eventMode, obj, ip, c, yes, no);
      }
    }
  }
}
