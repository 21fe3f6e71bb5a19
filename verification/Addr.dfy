/** A 128-bit address interval with at most one hole. */
module Addr {
  import opened Words
  import opened Filter

  datatype Addr = Addr(lo: Words, hi: Words, excl: Words, hasExcl: bool) {
    /** The addresses the interval stands for. */
    predicate Has(x: int) {
      Val(lo) <= x <= Val(hi) && !(hasExcl && x == Val(excl))
    }

    predicate IsFull() {
      !hasExcl && Spans(ZEROES, ONES)
    }

    predicate Spans(a: Words, b: Words) {
      Val(lo) == Val(a) && Val(hi) == Val(b)
    }
  }

  /** `a'` is `a` narrowed by one test against `arg`: its ends only move inwards and onto
      or next to `arg`, and a new hole is `arg`. */
  predicate NarrowedBy(a: Addr, a': Addr, test: Test, arg: Words) {
    && Val(a.lo) <= Val(a'.lo) && Val(a'.hi) <= Val(a.hi)
    && (a'.lo == a.lo || Val(a'.lo) == Val(arg) || Val(a'.lo) == Val(arg) + 1)
    && (a'.hi == a.hi || Val(a'.hi) == Val(arg) || Val(a'.hi) == Val(arg) - 1)
    && (a'.hasExcl ==> (a.hasExcl && a'.excl == a.excl) || (test == NEQ && a'.excl == arg))
    && (test == EQ ==> a'.lo == a'.hi == arg && !a'.hasExcl)
  }

  const FULL := Addr(ZEROES, ONES, ZEROES, false)

  /** Refuses an empty interval and forgets a hole outside it. */
  function Kept(a: Addr): Option<Addr> {
    if Val(a.lo) > Val(a.hi) then None
    else if a.hasExcl && (Val(a.excl) < Val(a.lo) || Val(a.excl) > Val(a.hi)) then Some(a.(hasExcl := false))
    else Some(a)
  }

  function Below(a: Addr, v: Words): Option<Addr> { Kept(if Val(v) < Val(a.hi) then a.(hi := v) else a) }

  function Above(a: Addr, v: Words): Option<Addr> { Kept(if Val(v) > Val(a.lo) then a.(lo := v) else a) }

  /** The interval without one address; a second hole is not kept. */
  function Holed(a: Addr, v: Words): Option<Addr> {
    if Val(v) < Val(a.lo) || Val(v) > Val(a.hi) then Some(a)
    else if Val(a.lo) == Val(v) == Val(a.hi) then None
    else if Val(a.lo) == Val(v) then Some(a.(lo := Succ(a.lo)))
    else if Val(a.hi) == Val(v) then Some(a.(hi := Pred(a.hi)))
    else if a.hasExcl then Some(a)
    else Some(a.(excl := v, hasExcl := true))
  }

  /** There is no room for the hole that `x test arg` asks for. */
  predicate Crowded(a: Addr, test: Test, arg: Words) {
    test == NEQ && a.hasExcl && Val(a.lo) < Val(arg) < Val(a.hi)
  }

  /** What is left of an interval by `x test arg`. */
  function Narrow(a: Addr, test: Test, arg: Words): Option<Addr> {
    match test
    case EQ => if a.Has(Val(arg)) then Some(a.(lo := arg, hi := arg, hasExcl := false)) else None
    case NEQ => Holed(a, arg)
    case LT => if Val(arg) == 0 then None else Below(a, Pred(arg))
    case LEQ => Below(a, arg)
    case GT => if Val(arg) == B128 - 1 then None else Above(a, Succ(arg))
    case GEQ => Above(a, arg)
  }

  /** What is left of an interval by a test are its addresses that pass the test, unless the test was dropped. */
  lemma NarrowHas(a: Addr, test: Test, arg: Words, x: int)
    ensures var n := Narrow(a, test, arg);
            n.Some? && n.value.Has(x) <==> a.Has(x) && (Crowded(a, test, arg) || Holds(test, x, Val(arg)))
  {
    hide Val, Succ, Pred;
    ValBounds(arg);
    ValBounds(a.lo);
    ValBounds(a.hi);
  }

  /** Intersects with `x test arg`.  `ok` is false when the intersection is known to be
      empty; `exact'` is cleared when a second hole had to be dropped. */
  method Apply(a: Addr, test: Test, arg: Words, exact: bool)
    returns (ok: bool, a': Addr, exact': bool)
    ensures exact' == (exact && !Crowded(a, test, arg))
    ensures forall x :: a.Has(x) && Holds(test, x, Val(arg)) ==> ok && a'.Has(x)
    ensures ok ==> forall x :: a'.Has(x) ==> a.Has(x)
    ensures ok && (exact' || test != NEQ) ==> forall x :: a'.Has(x) ==> Holds(test, x, Val(arg))
    ensures ok ==> NarrowedBy(a, a', test, arg)
    ensures Narrow(a, test, arg) == if ok then Some(a') else None
    ensures Crowded(a, test, arg) ==> ok && a' == a
  {
    hide Succ, Pred, Val;
    ok, a', exact' := true, a, exact;
    match test {
      case EQ =>
        ok, a' := ApplyEq(a, arg);
      case NEQ =>
        ok, a', exact' := ApplyNeq(a, arg, exact);
      case LT =>
        ValOfConstants();
        ValBounds(arg);
        var cmp := Cmp128(arg, ZEROES);
        if cmp == 0 {
          return false, a, exact;
        }
        var v := Dec128(arg);
        ValInjective(v, Pred(arg));
        ok, a' := ClipHigh(a, v);
      case LEQ =>
        ok, a' := ClipHigh(a, arg);
      case GT =>
        ValOfConstants();
        ValBounds(a.hi);
        ValBounds(arg);
        var cmp := Cmp128(arg, ONES);
        if cmp == 0 {
          return false, a, exact;
        }
        var v := Inc128(arg);
        ValInjective(v, Succ(arg));
        ok, a' := ClipLow(a, v);
      case GEQ =>
        ok, a' := ClipLow(a, arg);
    }
  }

  method ApplyEq(a: Addr, v: Words) returns (ok: bool, r: Addr)
    ensures a.Has(Val(v)) <==> ok
    ensures ok ==> forall x :: r.Has(x) <==> x == Val(v)
    ensures ok ==> NarrowedBy(a, r, EQ, v)
    ensures ok ==> r == a.(lo := v, hi := v, hasExcl := false)
  {
    r := a;
    var cmpLo := Cmp128(v, a.lo);
    var cmpHi := Cmp128(v, a.hi);
    if cmpLo < 0 || cmpHi > 0 {
      return false, a;
    }
    var cmpExcl := Cmp128(v, a.excl);
    if a.hasExcl && cmpExcl == 0 {
      return false, a;
    }
    return true, a.(lo := v, hi := v, hasExcl := false);
  }

  method ApplyNeq(a: Addr, v: Words, exact: bool) returns (ok: bool, r: Addr, exact': bool)
    ensures exact' == (exact && !(a.hasExcl && Val(a.lo) < Val(v) < Val(a.hi)))
    ensures forall x :: a.Has(x) && x != Val(v) ==> ok && r.Has(x)
    ensures ok ==> forall x :: r.Has(x) ==> a.Has(x) && (exact' ==> x != Val(v))
    ensures ok ==> NarrowedBy(a, r, NEQ, v)
    ensures Holed(a, v) == if ok then Some(r) else None
  {
    hide Succ, Pred, Val;
    var cmpLo := Cmp128(v, a.lo);
    var cmpHi := Cmp128(v, a.hi);
    if cmpLo < 0 || cmpHi > 0 {
      return true, a, exact;
    }
    if cmpLo == 0 && cmpHi == 0 {
      return false, a, exact;
    }
    ValBounds(a.hi);
    if cmpLo == 0 {
      var lo := Inc128(a.lo);
      ValInjective(lo, Succ(a.lo));
      return true, a.(lo := lo), exact;
    }
    if cmpHi == 0 {
      var hi := Dec128(a.hi);
      ValInjective(hi, Pred(a.hi));
      return true, a.(hi := hi), exact;
    }
    if a.hasExcl {
      return true, a, false;
    }
    return true, a.(excl := v, hasExcl := true), exact;
  }

  /** Lowers the upper end to `v`. */
  method ClipHigh(a: Addr, v: Words) returns (ok: bool, r: Addr)
    ensures forall x :: a.Has(x) && x <= Val(v) ==> ok && r.Has(x)
    ensures ok ==> forall x :: r.Has(x) ==> a.Has(x) && x <= Val(v)
    ensures ok ==> r.lo == a.lo && Val(r.hi) <= Val(a.hi) && (r.hi == a.hi || r.hi == v)
    ensures r.hasExcl ==> a.hasExcl && r.excl == a.excl
    ensures Below(a, v) == if ok then Some(r) else None
  {
    var cmp := Cmp128(v, a.hi);
    var clipped := if cmp < 0 then a.(hi := v) else a;
    assert forall x :: clipped.Has(x) <==> a.Has(x) && x <= Val(v);
    ok, r := Settle(clipped);
  }

  /** Raises the lower end to `v`. */
  method ClipLow(a: Addr, v: Words) returns (ok: bool, r: Addr)
    ensures forall x :: a.Has(x) && x >= Val(v) ==> ok && r.Has(x)
    ensures ok ==> forall x :: r.Has(x) ==> a.Has(x) && x >= Val(v)
    ensures ok ==> r.hi == a.hi && Val(a.lo) <= Val(r.lo) && (r.lo == a.lo || r.lo == v)
    ensures r.hasExcl ==> a.hasExcl && r.excl == a.excl
    ensures Above(a, v) == if ok then Some(r) else None
  {
    var cmp := Cmp128(v, a.lo);
    var clipped := if cmp > 0 then a.(lo := v) else a;
    assert forall x :: clipped.Has(x) <==> a.Has(x) && x >= Val(v);
    ok, r := Settle(clipped);
  }

  /** Refuses an empty interval and forgets a hole that fell outside. */
  method Settle(a: Addr) returns (ok: bool, r: Addr)
    ensures !ok ==> forall x :: !a.Has(x)
    ensures forall x :: r.Has(x) <==> a.Has(x)
    ensures r == a || r == a.(hasExcl := false)
    ensures Kept(a) == if ok then Some(r) else None
  {
    var cmp := Cmp128(a.lo, a.hi);
    if cmp > 0 {
      return false, a;
    }
    var exclLo := Cmp128(a.excl, a.lo);
    var exclHi := Cmp128(a.excl, a.hi);
    return true, if a.hasExcl && (exclLo < 0 || exclHi > 0) then a.(hasExcl := false) else a;
  }
}
