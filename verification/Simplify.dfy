/** Filter expressions, what they mean, and the folding of tests a field's range decides. */
module Simplify {
  import opened Words
  import opened Fields
  import opened Filter

  /** The left side of a test: a constant, or a field with its array index. */
  datatype Var = True | False | At(field: Field, index: u32)

  /** A single comparison; `neg` marks a negative literal. */
  datatype Atom = Atom(left: Var, test: Test, neg: bool, arg: Words)

  datatype Expr =
    | Leaf(atom: Atom)
    | And(left: Expr, right: Expr)
    | Or(left: Expr, right: Expr)
    | Choice(cond: Expr, yes: Expr, no: Expr)

  /** The fields the evaluator compares on all four words. */
  predicate IsWide(f: Field) {
    || f == TIMESTAMP || f == ENDPOINTID || f == PARENTENDPOINTID
    || f == IP_SRCADDR || f == IP_DSTADDR || f == IPV6_SRCADDR || f == IPV6_DSTADDR
    || f == LOCALADDR || f == REMOTEADDR
  }

  function VarValue(x: Var, v: View): Option<Operand> {
    match x
    case True => Some(Small(1))
    case False => Some(Small(0))
    case At(f, i) => FieldValue(v, f, i)
  }

  /** The order of signed 128-bit values as numbers; the literal `-0` sits just below 0. */
  function Rank(neg: bool, w: Words): int {
    if neg then -1 - Val(w) else Val(w)
  }

  function Signed(neg: bool, w: Words): int {
    var v: int := Val(w);
    if neg then -v else v
  }

  /** Ranks order signed values as integers, but for `-0` against `0`. */
  lemma RankIsSigned(negA: bool, a: Words, negB: bool, b: Words, test: Test)
    requires Val(a) != 0 || Val(b) != 0 || negA == negB
    ensures Holds(test, Rank(negA, a), Rank(negB, b)) <==> Holds(test, Signed(negA, a), Signed(negB, b))
  {
  }

  lemma CompareIsRank(negA: bool, a: Words, negB: bool, b: Words, test: Test)
    ensures Decide(test, Compare128(negA, a, negB, b, true)) <==> Holds(test, Rank(negA, a), Rank(negB, b))
  {
    CompareBig(a, b, test);
    CompareBig(b, a, test);
  }

  /** What a comparison says: the field is there, and its value compares as written. */
  predicate Meaning(a: Atom, v: View) {
    var value := VarValue(a.left, v);
    value.Some? && Holds(a.test, Rank(value.value.neg, value.value.words), Rank(a.neg, a.arg))
  }

  predicate ExprMeaning(e: Expr, v: View) {
    match e
    case Leaf(a) => Meaning(a, v)
    case And(l, r) => ExprMeaning(l, v) && ExprMeaning(r, v)
    case Or(l, r) => ExprMeaning(l, v) || ExprMeaning(r, v)
    case Choice(c, y, n) => if ExprMeaning(c, v) then ExprMeaning(y, v) else ExprMeaning(n, v)
  }

  /** The range of a field; `only` marks the constants. */
  datatype Bounds = Bounds(negLo: bool, lo: Words, hi: Words, only: bool)

  function UpTo(n: u32): Option<Bounds> {
    Some(Bounds(false, ZEROES, [n, 0, 0, 0], false))
  }

  /** The compiler's table of field ranges; seven fields are not in it. */
  function BoundsOf(x: Var): Option<Bounds> {
    match x
    case True => Some(Bounds(false, [1, 0, 0, 0], [1, 0, 0, 0], true))
    case False => Some(Bounds(false, ZEROES, ZEROES, true))
    case At(f, _) => FieldBounds(f)
  }

  function FieldBounds(f: Field): Option<Bounds> {
    if f == ZERO then Some(Bounds(false, ZEROES, ZEROES, true))
    else if IsUnbounded(f) then None
    else if f == INBOUND || f == OUTBOUND || f == FRAGMENT || IP <= f <= ICMPV6 then UpTo(1)
    else if f == IP_DF || f == IP_MF || IsTcpFlag(f) then UpTo(1)
    else if f == LAYER then UpTo(4)
    else if f == EVENT then UpTo(9)
    else if f == PRIORITY then Some(Bounds(true, [30000, 0, 0, 0], [30000, 0, 0, 0], false))
    else if f == IP_HDRLENGTH || f == TCP_HDRLENGTH then UpTo(0xF)
    else if IsByte(f) then UpTo(0xFF)
    else if f == IP_FRAGOFF then UpTo(0x1FFF)
    else if f == IPV6_FLOWLABEL then UpTo(0xF_FFFF)
    else if f == LENGTH then Some(Bounds(false, [20, 0, 0, 0], [40 + 0xFFFF, 0, 0, 0], false))
    else if f == IP_SRCADDR || f == IP_DSTADDR then Some(Bounds(false, MAPPED_LO, MAPPED_HI, false))
    else if f == IPV6_SRCADDR || f == IPV6_DSTADDR || f == LOCALADDR || f == REMOTEADDR then
      Some(Bounds(false, ZEROES, ONES, false))
    else if f == TIMESTAMP then
      Some(Bounds(true, [0, 0x8000_0000, 0, 0], [0xFFFF_FFFF, 0x7FFF_FFFF, 0, 0], false))
    else if f == ENDPOINTID || f == PARENTENDPOINTID then
      Some(Bounds(false, ZEROES, [0xFFFF_FFFF, 0xFFFF_FFFF, 0, 0], false))
    else if IsDouble(f) then UpTo(0xFFFF_FFFF)
    else UpTo(0xFFFF)
  }

  predicate IsUnbounded(f: Field) {
    || f == LOOPBACK || f == IMPOSTOR || f == TCP_SEQNUM || f == TCP_ACKNUM
    || f == ICMP_BODY || f == ICMPV6_BODY || f == PACKET32
  }

  predicate IsByte(f: Field) {
    || f == IP_TTL || f == IP_PROTOCOL || f == IPV6_TRAFFICCLASS || f == IPV6_NEXTHDR || f == IPV6_HOPLIMIT
    || f == ICMP_TYPE || f == ICMP_CODE || f == ICMPV6_TYPE || f == ICMPV6_CODE
    || f == TCP_PAYLOAD || f == UDP_PAYLOAD || f == PROTOCOL || f == PACKET || f == RANDOM8
  }

  predicate IsDouble(f: Field) {
    || f == IFIDX || f == SUBIFIDX || f == PROCESSID || f == RANDOM32
    || f == TCP_PAYLOAD32 || f == UDP_PAYLOAD32
  }

  predicate Within(b: Bounds, neg: bool, w: Words) {
    Rank(b.negLo, b.lo) <= Rank(neg, w) <= Rank(false, b.hi)
  }

  /** The outcome the range of the field forces on a comparison, if it forces one. */
  function Verdict(a: Atom): Option<bool> {
    match BoundsOf(a.left)
    case None => None
    case Some(b) =>
      var lo := Compare128(a.neg, a.arg, b.negLo, b.lo, true);
      var hi := Compare128(a.neg, a.arg, false, b.hi, true);
      match a.test
      case EQ => if lo < 0 || hi > 0 then Some(false) else if b.only && lo == 0 then Some(true) else None
      case NEQ => if lo < 0 || hi > 0 then Some(true) else if b.only && lo == 0 then Some(false) else None
      case LT => if hi > 0 then Some(true) else if lo <= 0 then Some(false) else None
      case LEQ => if hi >= 0 then Some(true) else if lo < 0 then Some(false) else None
      case GT => if hi >= 0 then Some(false) else if lo < 0 then Some(true) else None
      case GEQ => if hi > 0 then Some(false) else if lo <= 0 then Some(true) else None
  }

  /** The variable that is 1 when the field's header is present. */
  function Gate(x: Var): Var {
    if !x.At? then True
    else
      match HeaderOf(x.field)
      case NoHeader => True
      case IpHeader => At(IP, 0)
      case Ipv6Header => At(IPV6, 0)
      case IcmpHeader => At(ICMP, 0)
      case Icmpv6Header => At(ICMPV6, 0)
      case TcpHeader => At(TCP, 0)
      case UdpHeader => At(UDP, 0)
  }

  /** A decided comparison becomes `gate == 1` or `gate == 0`; the rest stay as they are. */
  function SimplifyTest(a: Atom): Atom {
    match Verdict(a)
    case None => a
    case Some(r) => Atom(Gate(a.left), EQ, false, [if r then 1 else 0, 0, 0, 0])
  }

  predicate InRange(f: Field, op: Operand) {
    FieldBounds(f).Some? ==> Within(FieldBounds(f).value, op.neg, op.words)
  }

  /** A value as its field's width and range allow it; the evaluator's flow label is not kept to a range. */
  predicate TypedValue(f: Field, op: Operand) {
    && op.big == IsWide(f)
    && (!op.big ==> op.words[1] == op.words[2] == op.words[3] == 0)
    && (FieldBounds(f).None? ==> !op.neg)
    && (f != IPV6_FLOWLABEL ==> InRange(f, op))
  }

  /** What the evaluator gives for the fields outside the lowering is in range, does not
      depend on an index the field does not have, and on an event holds no header fields. */
  ghost predicate OthersTyped(v: View) {
    && (forall f: Field, i: u32 {:trigger v.other(f, i)} :: v.other(f, i).Some? ==> TypedValue(f, v.other(f, i).value))
    && (forall f: Field, i: u32 {:trigger v.other(f, i)} :: !IsArray(f) ==> v.other(f, i) == v.other(f, 0))
    && (v.EventView? ==> v.event <= 9)
    && (v.EventView? ==> forall f: Field, i: u32 {:trigger v.other(f, i)} :: HeaderOf(f) != NoHeader ==>
      v.other(f, i).None?)
  }

  lemma SmallTyped(f: Field, n: u32, hi: u32)
    requires !IsWide(f) && n <= hi
    requires FieldBounds(f).None? || FieldBounds(f) == UpTo(hi)
    ensures TypedValue(f, Small(n))
  {
    ValOfConstants();
    assert Val([n, 0, 0, 0]) == n && Val([hi, 0, 0, 0]) == hi;
  }

  lemma AddressTyped(f: Field, w: Words)
    requires f == IPV6_SRCADDR || f == IPV6_DSTADDR || f == LOCALADDR || f == REMOTEADDR ||
             ((f == IP_SRCADDR || f == IP_DSTADDR) && IsMapped(w))
    ensures TypedValue(f, Big(w))
  {
    ValOfConstants();
    ValBounds(w);
    MappedIsInterval(w);
    hide Val, IsMapped;
  }

  /** A field of a header: `PacketValue` reads it from the packet or from `other`. */
  lemma HeaderTyped(v: View, f: Field, i: u32)
    requires v.PacketView? && OthersTyped(v) && HeaderOf(f) != NoHeader && HasHeader(v, HeaderOf(f))
    ensures PacketValue(v, f, i).Some? ==> TypedValue(f, PacketValue(v, f, i).value)
  {
    hide TypedValue, OthersTyped;
    if f == IP_TTL { SmallTyped(f, v.ip.ttl, 0xFF); }
    else if f == IP_PROTOCOL { SmallTyped(f, v.ip.protocol, 0xFF); }
    else if f == IPV6_HOPLIMIT { SmallTyped(f, v.ip.hopLimit, 0xFF); }
    else if f == IP_SRCADDR || f == IPV6_SRCADDR { AddressTyped(f, v.ip.Src()); }
    else if f == IP_DSTADDR || f == IPV6_DSTADDR { AddressTyped(f, v.ip.Dst()); }
    else if IsSourceValue(f) || IsDestValue(f) {
      var op := TransportValue(v.transport, f);
      SmallTyped(f, op.words[0], if IsByte(f) then 0xFF else 0xFFFF);
    }
    else if IsTcpFlag(f) { SmallTyped(f, if TcpFlagBit(f) in v.transport.flags then 1 else 0, 1); }
    else { OtherTyped(v, f, i); }
  }

  lemma OtherTyped(v: View, f: Field, i: u32)
    requires OthersTyped(v)
    ensures v.other(f, i).Some? ==> TypedValue(f, v.other(f, i).value)
  {
  }

  lemma PacketTyped(v: View, f: Field, i: u32)
    requires v.PacketView? && OthersTyped(v)
    ensures PacketValue(v, f, i).Some? ==> TypedValue(f, PacketValue(v, f, i).value)
  {
    if !HasHeader(v, HeaderOf(f)) {
    } else if HeaderOf(f) != NoHeader {
      HeaderTyped(v, f, i);
    } else if f == LOCALADDR {
      AddressTyped(f, if v.outbound then v.ip.Src() else v.ip.Dst());
    } else if f == REMOTEADDR {
      AddressTyped(f, if v.outbound then v.ip.Dst() else v.ip.Src());
    } else {
      PlainTyped(v, f, i);
    }
  }

  lemma PlainTyped(v: View, f: Field, i: u32)
    requires v.PacketView? && OthersTyped(v) && HeaderOf(f) == NoHeader && f != LOCALADDR && f != REMOTEADDR
    ensures PacketValue(v, f, i).Some? ==> TypedValue(f, PacketValue(v, f, i).value)
  {
    hide TypedValue, OthersTyped;
    var value := PacketValue(v, f, i);
    if f == ZERO { ZeroTyped(); }
    else if f == EVENT { SmallTyped(f, 0, 9); }
    else if f == INBOUND || f == OUTBOUND || f == LOOPBACK || IP <= f <= ICMPV6 {
      SmallTyped(f, value.value.words[0], 1);
    } else if f == LOCALPORT || f == REMOTEPORT {
      SmallTyped(f, value.value.words[0], 0xFFFF);
    } else if f == PROTOCOL {
      SmallTyped(f, v.protocol, 0xFF);
    } else {
      OtherTyped(v, f, i);
    }
  }

  lemma ZeroTyped()
    ensures TypedValue(ZERO, Small(0))
  {
    ValOfConstants();
  }

  lemma EventTyped(v: View, f: Field, i: u32)
    requires v.EventView? && OthersTyped(v)
    ensures EventValue(v, f, i).Some? ==> TypedValue(f, EventValue(v, f, i).value)
  {
    EventKindTyped(v);
    hide TypedValue, OthersTyped;
    if f == ZERO { ZeroTyped(); }
    else if f == IP || f == IPV6 { SmallTyped(f, 0, 1); }
    else if f == EVENT { SmallTyped(f, v.event, 9); }
    else if f == PROCESSID { SmallTyped(f, v.pid, 0xFFFF_FFFF); }
    else if f == PROTOCOL { SmallTyped(f, v.protocol, 0xFF); }
    else if f == TCP { SmallTyped(f, if v.protocol == IPPROTO_TCP then 1 else 0, 1); }
    else if f == UDP { SmallTyped(f, if v.protocol == IPPROTO_UDP then 1 else 0, 1); }
    else if f == LOCALPORT { SmallTyped(f, v.localPort, 0xFFFF); }
    else if f == REMOTEPORT { SmallTyped(f, v.remotePort, 0xFFFF); }
    else if f == LOCALADDR { AddressTyped(f, v.local); }
    else if f == REMOTEADDR { AddressTyped(f, v.remote); }
    else { OtherTyped(v, f, i); }
  }

  lemma EventKindTyped(v: View)
    requires v.EventView? && OthersTyped(v)
    ensures v.event <= 9
  {
  }

  /** On a typed view every field's value is in its range. */
  lemma ValuesTyped(v: View, f: Field, i: u32)
    requires OthersTyped(v)
    ensures FieldValue(v, f, i).Some? ==> TypedValue(f, FieldValue(v, f, i).value)
    ensures !IsArray(f) ==> FieldValue(v, f, i) == FieldValue(v, f, 0)
  {
    if v.PacketView? {
      PacketTyped(v, f, i);
    } else {
      EventTyped(v, f, i);
    }
  }

  /** The table folds a comparison exactly when every value in range gives that outcome. */
  lemma VerdictExact(a: Atom, b: Bounds, r: bool)
    requires BoundsOf(a.left) == Some(b)
    ensures Verdict(a) == Some(r) <==>
            forall x :: Rank(b.negLo, b.lo) <= x <= Rank(false, b.hi) ==> Holds(a.test, x, Rank(a.neg, a.arg)) == r
  {
    var lo, hi, lit := Rank(b.negLo, b.lo), Rank(false, b.hi), Rank(a.neg, a.arg);
    VerdictRanks(a, b);
    BoundsOrder(a.left);
    assert Holds(a.test, lo, lit) || !Holds(a.test, lo, lit);
    assert Holds(a.test, hi, lit) || !Holds(a.test, hi, lit);
    assert Holds(a.test, lit, lit) || !Holds(a.test, lit, lit);
    hide Rank, BoundsOf, Verdict;
  }

  lemma BoundsOrder(x: Var)
    requires BoundsOf(x).Some?
    ensures var b := BoundsOf(x).value;
            if b.only then Rank(b.negLo, b.lo) == Rank(false, b.hi) else Rank(b.negLo, b.lo) < Rank(false, b.hi)
    ensures x.At? && !IsWide(x.field) ==>
              var b := BoundsOf(x).value;
              b.lo[1] == b.lo[2] == b.lo[3] == b.hi[1] == b.hi[2] == b.hi[3] == 0
  {
    ValOfConstants();
  }

  /** The comparisons behind `Verdict`, on numbers. */
  lemma VerdictRanks(a: Atom, b: Bounds)
    requires BoundsOf(a.left) == Some(b)
    ensures var lo, hi, lit := Rank(b.negLo, b.lo), Rank(false, b.hi), Rank(a.neg, a.arg);
            Verdict(a) ==
            match a.test
            case EQ => if lit < lo || hi < lit then Some(false) else if b.only && lit == lo then Some(true) else None
            case NEQ => if lit < lo || hi < lit then Some(true) else if b.only && lit == lo then Some(false) else None
            case LT => if hi < lit then Some(true) else if lit <= lo then Some(false) else None
            case LEQ => if hi <= lit then Some(true) else if lit < lo then Some(false) else None
            case GT => if hi <= lit then Some(false) else if lit < lo then Some(true) else None
            case GEQ => if hi < lit then Some(false) else if lit <= lo then Some(true) else None
  {
    CompareIsRank(a.neg, a.arg, b.negLo, b.lo, LT);
    CompareIsRank(a.neg, a.arg, b.negLo, b.lo, EQ);
    CompareIsRank(a.neg, a.arg, false, b.hi, GT);
    CompareIsRank(a.neg, a.arg, false, b.hi, EQ);
    hide Rank, Compare128, BoundsOf;
  }

  /** What the evaluator makes of a comparison. */
  predicate Evaluates(a: Atom, v: View) {
    var value := VarValue(a.left, v);
    value.Some? && Meets(value.value, a.test, a.neg, a.arg)
  }

  /** A literal too wide for one word still compares right only in these cases. */
  predicate LiteralKept(a: Atom) {
    a.left.At? && IsUnbounded(a.left.field) ==>
      || a.neg || (a.arg[1] == a.arg[2] == a.arg[3] == 0)
      || (a.arg[0] == 0xFFFF_FFFF && (a.test == LEQ || a.test == GT))
  }

  /** One-word comparison is right about every value iff the literal is kept. */
  lemma LiteralKeptIff(a: Atom)
    requires a.left.At? && IsUnbounded(a.left.field)
    ensures LiteralKept(a) <==>
            forall n: u32 :: Meets(Small(n), a.test, a.neg, a.arg) == Holds(a.test, n, Rank(a.neg, a.arg))
  {
    if !LiteralKept(a) {
      var w := a.arg[0];
      var top: u32 := 0xFFFF_FFFF;
      assert Val(a.arg) >= B32;
      if a.test == EQ || a.test == NEQ || a.test == LT || a.test == GEQ {
        var n := if a.test == EQ || a.test == NEQ then w else top;
        assert Meets(Small(n), a.test, a.neg, a.arg) != Holds(a.test, n, Rank(a.neg, a.arg));
      } else {
        assert Meets(Small(top), a.test, a.neg, a.arg) != Holds(a.test, top, Rank(a.neg, a.arg));
      }
    }
  }

  /** A comparison that survives folding is evaluated as it reads. */
  lemma SurvivorEvaluates(a: Atom, v: View)
    requires OthersTyped(v) && LiteralKept(a) && Verdict(a).None?
    ensures Evaluates(a, v) == Meaning(a, v)
  {
    SurvivorIsField(a);
    var f := a.left.field;
    ValuesTyped(v, f, a.left.index);
    var value := FieldValue(v, f, a.left.index);
    if value.Some? {
      if IsWide(f) {
        CompareIsRank(value.value.neg, value.value.words, a.neg, a.arg, a.test);
      } else if IsUnbounded(f) {
        LiteralKeptIff(a);
        assert value.value == Small(value.value.words[0]);
        assert Meets(Small(value.value.words[0]), a.test, a.neg, a.arg)
            == Holds(a.test, value.value.words[0], Rank(a.neg, a.arg));
        assert Val(value.value.words) == value.value.words[0];
      } else {
        SurvivorInRange(a);
        BoundsOrder(a.left);
        NarrowInRange(BoundsOf(a.left).value, a.neg, a.arg);
        CompareNarrow(value.value.neg, value.value.words, a.neg, a.arg);
        CompareIsRank(value.value.neg, value.value.words, a.neg, a.arg, a.test);
      }
    }
  }

  lemma SurvivorIsField(a: Atom)
    requires Verdict(a).None?
    ensures a.left.At? && a.left.field != ZERO
  {
    if BoundsOf(a.left).Some? {
      VerdictRanks(a, BoundsOf(a.left).value);
      BoundsOrder(a.left);
    }
  }

  /** The literal of a comparison that survives is itself in the field's range. */
  lemma SurvivorInRange(a: Atom)
    requires Verdict(a).None? && BoundsOf(a.left).Some?
    ensures Within(BoundsOf(a.left).value, a.neg, a.arg)
  {
    VerdictRanks(a, BoundsOf(a.left).value);
    hide Rank, Verdict, BoundsOf;
  }

  lemma NarrowInRange(b: Bounds, neg: bool, w: Words)
    requires b.lo[1] == b.lo[2] == b.lo[3] == b.hi[1] == b.hi[2] == b.hi[3] == 0
    requires Within(b, neg, w)
    ensures w[1] == w[2] == w[3] == 0
  {
    assert Val(w) < B32;
  }

  lemma CompareNarrow(negA: bool, a: Words, negB: bool, b: Words)
    requires a[1] == a[2] == a[3] == b[1] == b[2] == b[3] == 0
    ensures Compare128(negA, a, negB, b, false) == Compare128(negA, a, negB, b, true)
  {
  }

  /** The flow label, if this is it, is read as a number of its range. */
  predicate ReadInRange(x: Var, v: View) {
    x.At? && VarValue(x, v).Some? ==> InRange(x.field, VarValue(x, v).value)
  }

  /** Where folding does not change the truth of a comparison: it was not folded, or its field is
      defined and read in its range, or it is not defined and the flag it was replaced by does not show the
      folded outcome. */
  predicate Settled(a: Atom, v: View) {
    || Verdict(a).None?
    || if VarValue(a.left, v).Some? then ReadInRange(a.left, v)
       else VarValue(Gate(a.left), v) != Some(Bool(Verdict(a).value))
  }

  /** On a typed view a folded comparison keeps its meaning where it is settled, and only there unless a
      flow label is read out of its range. */
  lemma SimplifyIff(a: Atom, v: View)
    requires OthersTyped(v) && LiteralKept(a)
    ensures Settled(a, v) ==> Evaluates(SimplifyTest(a), v) == Meaning(a, v)
    ensures ReadInRange(a.left, v) ==> (Evaluates(SimplifyTest(a), v) == Meaning(a, v) <==> Settled(a, v))
    ensures !ReadInRange(a.left, v) ==> a.left == At(IPV6_FLOWLABEL, a.left.index)
  {
    if !ReadInRange(a.left, v) {
      OnlyFlowLabel(a.left, v);
    }
    if Verdict(a).None? {
      SurvivorEvaluates(a, v);
    } else {
      var r := Verdict(a).value;
      GateEvaluates(a, v, r);
      if VarValue(a.left, v).Some? {
        GateOpen(a.left, v);
        if ReadInRange(a.left, v) {
          FoldedMeaning(a, v, r);
        }
      }
      hide Meaning, Verdict, Gate, VarValue;
    }
  }

  lemma OnlyFlowLabel(x: Var, v: View)
    requires OthersTyped(v) && !ReadInRange(x, v)
    ensures x.At? && x.field == IPV6_FLOWLABEL
  {
    hide OthersTyped, InRange;
    ValuesTyped(v, x.field, x.index);
  }

  lemma GateEvaluates(a: Atom, v: View, r: bool)
    requires OthersTyped(v) && Verdict(a) == Some(r)
    ensures Evaluates(SimplifyTest(a), v) <==> VarValue(Gate(a.left), v) == Some(Bool(r))
  {
    var g := Gate(a.left);
    if g.At? {
      assert !IsWide(g.field) && FieldBounds(g.field) == UpTo(1);
      ValuesTyped(v, g.field, 0);
      var value := FieldValue(v, g.field, 0);
      if value.Some? {
        var op := value.value;
        assert Val(UpTo(1).value.hi) == 1;
        assert op == Small(op.words[0]);
      }
    }
  }

  /** A defined field's header is there. */
  lemma GateOpen(x: Var, v: View)
    requires OthersTyped(v) && VarValue(x, v).Some?
    ensures VarValue(Gate(x), v) == Some(Bool(true))
  {
  }

  lemma FoldedMeaning(a: Atom, v: View, r: bool)
    requires OthersTyped(v) && Verdict(a) == Some(r) && VarValue(a.left, v).Some? && ReadInRange(a.left, v)
    ensures Meaning(a, v) == r
  {
    var b := BoundsOf(a.left).value;
    var op := VarValue(a.left, v).value;
    VerdictExact(a, b, r);
    if a.left.At? {
      ValuesTyped(v, a.left.field, a.left.index);
    } else {
      assert Val(op.words) == op.words[0];
    }
    assert Rank(b.negLo, b.lo) <= Rank(op.neg, op.words) <= Rank(false, b.hi);
  }

  /** The tests of an expression, folded. */
  predicate Folded(e: Expr, v: View) {
    match e
    case Leaf(a) => Evaluates(SimplifyTest(a), v)
    case And(l, r) => Folded(l, v) && Folded(r, v)
    case Or(l, r) => Folded(l, v) || Folded(r, v)
    case Choice(c, y, n) => if Folded(c, v) then Folded(y, v) else Folded(n, v)
  }

  predicate AllSettled(e: Expr, v: View) {
    match e
    case Leaf(a) => LiteralKept(a) && Settled(a, v)
    case And(l, r) => AllSettled(l, v) && AllSettled(r, v)
    case Or(l, r) => AllSettled(l, v) && AllSettled(r, v)
    case Choice(c, y, n) => AllSettled(c, v) && AllSettled(y, v) && AllSettled(n, v)
  }

  lemma {:induction false} FoldedMeans(e: Expr, v: View)
    requires OthersTyped(v) && AllSettled(e, v)
    ensures Folded(e, v) == ExprMeaning(e, v)
  {
    hide OthersTyped;
    match e
    case Leaf(a) => SimplifyIff(a, v);
    case And(l, r) => FoldedMeans(l, v); FoldedMeans(r, v);
    case Or(l, r) => FoldedMeans(l, v); FoldedMeans(r, v);
    case Choice(c, y, n) => FoldedMeans(c, v); FoldedMeans(y, v); FoldedMeans(n, v);
  }

  /** `tcp.SrcPort > 70000` holds of nothing, yet folds to `tcp == 0`, which any packet
      without a TCP header passes. */
  lemma FoldedOnMissingHeader(v: View)
    requires v.PacketView? && !v.transport.Tcp?
    ensures var a := Atom(At(TCP_SRCPORT, 0), GT, false, [70000, 0, 0, 0]);
            !Meaning(a, v) && Evaluates(SimplifyTest(a), v)
  {
    var a := Atom(At(TCP_SRCPORT, 0), GT, false, [70000, 0, 0, 0]);
    assert Verdict(a) == Some(false);
    assert SimplifyTest(a) == Atom(At(TCP, 0), EQ, false, [0, 0, 0, 0]);
  }
}
