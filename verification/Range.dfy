/** An inclusive interval of unsigned values minus a few excluded points, and how
    the lowering intersects it with a test. */
module Range {
  import opened Words
  import opened Filter

  const MAX_EXCL := 4

  datatype Range = Range(lo: u32, hi: u32, excl: seq<u32>) {
    /** The values the range stands for. */
    predicate Has(v: int) {
      lo <= v <= hi && v !in excl
    }

    /** No hole is outside the interval or on its edge. */
    predicate Normal() {
      forall i :: 0 <= i < |excl| ==> lo < excl[i] < hi
    }

    predicate Valid(max: u32) {
      lo <= hi <= max && |excl| <= MAX_EXCL && Normal()
    }

    predicate IsFull(max: u32) {
      lo == 0 && hi == max && excl == []
    }
  }

  function Full(max: u32): Range {
    Range(0, max, [])
  }

  function Without<T>(s: seq<T>, i: nat): seq<T>
    requires i < |s|
  {
    s[..i] + s[i + 1..]
  }

  /** Trimming from hole `i` on; `changed` asks for another round. */
  function Trim(n: Range, i: nat, changed: bool): Range
    requires n.lo <= n.hi && i <= |n.excl|
    decreases |n.excl|, changed, |n.excl| - i
  {
    if i == |n.excl| then if changed then Trim(n, 0, false) else n
    else
      var x, rest := n.excl[i], Without(n.excl, i);
      if x < n.lo || x > n.hi then Trim(Range(n.lo, n.hi, rest), i, changed)
      else if n.lo == n.hi then Range(1, 0, [])
      else if x == n.lo then Trim(Range(n.lo + 1, n.hi, rest), i, true)
      else if x == n.hi then Trim(Range(n.lo, n.hi - 1, rest), i, true)
      else Trim(n, i + 1, changed)
  }

  /** Drops holes outside the interval and moves the interval's edges past holes
      that sit on them, without changing the set of values. */
  method Normalize(r: Range) returns (n: Range)
    requires r.lo <= r.hi
    ensures forall v :: n.Has(v) <==> r.Has(v)
    ensures n.Normal()
    ensures n.hi <= r.hi && |n.excl| <= |r.excl|
    ensures n.lo > n.hi ==> n == Range(1, 0, [])
    ensures n == Trim(r, 0, false)
  {
    n := r;
    var changed := true;
    while changed
      invariant n.lo <= n.hi <= r.hi && |n.excl| <= |r.excl|
      invariant forall v :: n.Has(v) <==> r.Has(v)
      invariant !changed ==> n.Normal() && n == Trim(r, 0, false)
      invariant changed ==> Trim(n, 0, false) == Trim(r, 0, false)
      decreases |n.excl|, changed
    {
      changed := false;
      var i := 0;
      ghost var before := |n.excl|;
      while i < |n.excl|
        invariant 0 <= i <= |n.excl| <= before
        invariant changed ==> |n.excl| < before
        invariant n.lo <= n.hi <= r.hi
        invariant forall v :: n.Has(v) <==> r.Has(v)
        invariant !changed ==> forall j :: 0 <= j < i ==> n.lo < n.excl[j] < n.hi
        invariant Trim(n, i, changed) == Trim(r, 0, false)
        decreases |n.excl| - i
      {
        var x := n.excl[i];
        var drop := false;
        var lo, hi := n.lo, n.hi;
        if x < n.lo || x > n.hi {
          drop := true;
        } else if n.lo == n.hi {
          assert x in n.excl;
          assert forall v :: !n.Has(v);
          return Range(1, 0, []);
        } else if x == n.lo {
          lo := lo + 1;
          drop, changed := true, true;
        } else if x == n.hi {
          hi := hi - 1;
          drop, changed := true, true;
        }
        if drop {
          DropHole(n, i, lo, hi);
          n := Range(lo, hi, Without(n.excl, i));
        } else {
          i := i + 1;
        }
      }
    }
  }

  /** Dropping hole `i` is harmless when the new interval is the old one without it. */
  lemma DropHole(r: Range, i: nat, lo: u32, hi: u32)
    requires i < |r.excl|
    requires
      || (lo == r.lo && hi == r.hi && !(lo <= r.excl[i] <= hi))
      || (r.excl[i] == r.lo && lo == r.lo + 1 && hi == r.hi)
      || (r.excl[i] == r.hi && lo == r.lo && hi == r.hi - 1)
    ensures forall v :: Range(lo, hi, Without(r.excl, i)).Has(v) <==> r.Has(v)
  {
    var e := Without(r.excl, i);
    forall v
      ensures v in r.excl <==> v == r.excl[i] || v in e
    {
      if v in r.excl && v != r.excl[i] {
        var k :| 0 <= k < |r.excl| && r.excl[k] == v;
        assert e[if k < i then k else k - 1] == v;
      }
    }
  }

  /** The interval clipped to `[lo, hi]`. */
  function Clip(r: Range, lo: u32, hi: u32): Option<Range> {
    var clipped := Range(if lo > r.lo then lo else r.lo, if hi < r.hi then hi else r.hi, r.excl);
    if clipped.lo > clipped.hi then None else Settled(clipped)
  }

  function Settled(r: Range): Option<Range>
    requires r.lo <= r.hi
  {
    var n := Trim(r, 0, false);
    if n.lo <= n.hi then Some(n) else None
  }

  /** There is no room for the hole that `v test arg` asks for. */
  predicate Crowded(r: Range, test: Test, arg: u32, max: u32) {
    test == NEQ && arg <= max && r.Has(arg) && |r.excl| == MAX_EXCL
  }

  /** What is left of a range by `v test arg`. */
  function Narrow(r: Range, test: Test, arg: u32, max: u32): Option<Range> {
    if arg > max then if test == EQ || test == GT || test == GEQ then None else Some(r)
    else
      match test
      case EQ => Clip(r, arg, arg)
      case NEQ =>
        if !r.Has(arg) || |r.excl| == MAX_EXCL then Some(r) else Settled(Range(r.lo, r.hi, r.excl + [arg]))
      case LT => if arg == 0 then None else Clip(r, 0, arg - 1)
      case LEQ => Clip(r, 0, arg)
      case GT => if arg == max then None else Clip(r, arg + 1, max)
      case GEQ => Clip(r, arg, max)
  }

  /** Trimming does not change the set of values. */
  lemma {:induction false} TrimSame(n: Range, i: nat, changed: bool, v: int)
    requires n.lo <= n.hi && i <= |n.excl|
    ensures Trim(n, i, changed).Has(v) <==> n.Has(v)
    decreases |n.excl|, changed, |n.excl| - i
  {
    if i == |n.excl| {
      if changed {
        TrimSame(n, 0, false, v);
      }
    } else {
      var x, rest := n.excl[i], Without(n.excl, i);
      if x < n.lo || x > n.hi {
        DropHole(n, i, n.lo, n.hi);
        TrimSame(Range(n.lo, n.hi, rest), i, changed, v);
      } else if n.lo == n.hi {
        assert x in n.excl;
      } else if x == n.lo {
        DropHole(n, i, n.lo + 1, n.hi);
        TrimSame(Range(n.lo + 1, n.hi, rest), i, true, v);
      } else if x == n.hi {
        DropHole(n, i, n.lo, n.hi - 1);
        TrimSame(Range(n.lo, n.hi - 1, rest), i, true, v);
      } else {
        TrimSame(n, i + 1, changed, v);
      }
    }
  }

  lemma {:induction false} TrimFewer(n: Range, i: nat, changed: bool)
    requires n.lo <= n.hi && i <= |n.excl|
    ensures |Trim(n, i, changed).excl| <= |n.excl|
    decreases |n.excl|, changed, |n.excl| - i
  {
    if i == |n.excl| {
      if changed {
        TrimFewer(n, 0, false);
      }
    } else {
      var x, rest := n.excl[i], Without(n.excl, i);
      if x < n.lo || x > n.hi {
        TrimFewer(Range(n.lo, n.hi, rest), i, changed);
      } else if n.lo == n.hi {
      } else if x == n.lo {
        TrimFewer(Range(n.lo + 1, n.hi, rest), i, true);
      } else if x == n.hi {
        TrimFewer(Range(n.lo, n.hi - 1, rest), i, true);
      } else {
        TrimFewer(n, i + 1, changed);
      }
    }
  }

  /** Excluding a value makes at most one more hole. */
  lemma NarrowHoles(r: Range, arg: u32, max: u32)
    ensures var n := Narrow(r, NEQ, arg, max);
            n.Some? ==> |n.value.excl| <= |r.excl| + 1
  {
    hide Trim;
    if arg <= max && r.Has(arg) && |r.excl| != MAX_EXCL {
      TrimFewer(Range(r.lo, r.hi, r.excl + [arg]), 0, false);
    }
  }

  lemma ClipHas(r: Range, lo: u32, hi: u32, v: int)
    ensures Clip(r, lo, hi).Some? && Clip(r, lo, hi).value.Has(v) <==> r.Has(v) && lo <= v <= hi
  {
    hide Trim;
    var clipped := Range(if lo > r.lo then lo else r.lo, if hi < r.hi then hi else r.hi, r.excl);
    if clipped.lo <= clipped.hi {
      TrimSame(clipped, 0, false, v);
    }
  }

  /** What is left of a range by a test are its values that pass the test, unless the test was dropped. */
  lemma NarrowHas(r: Range, test: Test, arg: u32, max: u32, v: int)
    requires 0 <= v <= max
    ensures var n := Narrow(r, test, arg, max);
            n.Some? && n.value.Has(v) <==> r.Has(v) && (Crowded(r, test, arg, max) || Holds(test, v, arg))
  {
    hide Trim, Clip;
    if arg <= max {
      match test {
        case EQ => ClipHas(r, arg, arg, v);
        case NEQ =>
          if r.Has(arg) && |r.excl| != MAX_EXCL {
            var holed := Range(r.lo, r.hi, r.excl + [arg]);
            TrimSame(holed, 0, false, v);
            assert holed.Has(v) <==> r.Has(v) && v != arg;
          }
        case LT => if arg > 0 { ClipHas(r, 0, arg - 1, v); }
        case LEQ => ClipHas(r, 0, arg, v);
        case GT => if arg < max { ClipHas(r, arg + 1, max, v); }
        case GEQ => ClipHas(r, arg, max, v);
      }
    }
  }

  /** Cuts a range down to `[lo, hi]`. */
  method ClipTo(r: Range, lo: u32, hi: u32, max: u32) returns (ok: bool, r': Range)
    requires r.Valid(max)
    ensures ok ==> r'.Valid(max)
    ensures forall v :: r.Has(v) && lo <= v <= hi ==> ok && r'.Has(v)
    ensures ok ==> forall v :: r'.Has(v) ==> r.Has(v) && lo <= v <= hi
    ensures |r'.excl| <= |r.excl|
    ensures Clip(r, lo, hi) == if ok then Some(r') else None
  {
    hide Trim;
    var clipped := r;
    if lo > clipped.lo {
      clipped := clipped.(lo := lo);
    }
    if hi < clipped.hi {
      clipped := clipped.(hi := hi);
    }
    assert forall v :: clipped.Has(v) <==> r.Has(v) && lo <= v <= hi;
    if clipped.lo > clipped.hi {
      return false, clipped;
    }
    r' := Normalize(clipped);
    ok := r'.lo <= r'.hi;
  }

  /** Takes one value out of a range that has room for a hole. */
  method CutOut(r: Range, v: u32, max: u32) returns (ok: bool, r': Range)
    requires r.Valid(max) && |r.excl| < MAX_EXCL && r.lo <= v <= r.hi
    ensures ok ==> r'.Valid(max)
    ensures forall x :: r.Has(x) && x != v ==> ok && r'.Has(x)
    ensures ok ==> forall x :: r'.Has(x) ==> r.Has(x) && x != v
    ensures Settled(Range(r.lo, r.hi, r.excl + [v])) == if ok then Some(r') else None
  {
    hide Trim;
    var holed := Range(r.lo, r.hi, r.excl + [v]);
    assert forall x :: holed.Has(x) <==> r.Has(x) && x != v;
    r' := Normalize(holed);
    ok := r'.lo <= r'.hi;
  }

  /** Intersects with `v test arg`.  `ok` is false when nothing is left; `exact'` is
      cleared when the test could not be expressed and was dropped. */
  method Apply(r: Range, test: Test, arg: u32, max: u32, exact: bool)
    returns (ok: bool, r': Range, exact': bool)
    requires r.Valid(max)
    ensures ok ==> r'.Valid(max)
    ensures exact' == (exact && !Crowded(r, test, arg, max))
    ensures forall v :: 0 <= v <= max && r.Has(v) && Holds(test, v, arg) ==> ok && r'.Has(v)
    ensures ok ==> forall v :: r'.Has(v) ==> r.Has(v)
    ensures test != NEQ ==> |r'.excl| <= |r.excl|
    ensures ok && (exact' || test != NEQ) ==> forall v :: 0 <= v <= max && r'.Has(v) ==> Holds(test, v, arg)
    ensures Narrow(r, test, arg, max) == if ok then Some(r') else None
    ensures Crowded(r, test, arg, max) ==> ok && r' == r
  {
    hide Trim, Range.Normal, Clip, Settled;
    ok, r', exact' := true, r, exact;
    var lo, hi := 0, max;
    if arg > max {
      match test {
        case EQ | GT | GEQ => return false, r, exact;
        case _ => return true, r, exact;
      }
    }
    match test {
      case EQ =>
        lo, hi := arg, arg;
      case NEQ =>
        if !r.Has(arg) {
          return true, r, exact;
        }
        if |r.excl| == MAX_EXCL {
          return true, r, false;
        }
        ok, r' := CutOut(r, arg, max);
        return;
      case LT =>
        if arg == 0 {
          return false, r, exact;
        }
        hi := arg - 1;
      case LEQ =>
        hi := arg;
      case GT =>
        if arg == max {
          return false, r, exact;
        }
        lo := arg + 1;
      case GEQ =>
        lo := arg;
    }
    ok, r' := ClipTo(r, lo, hi, max);
  }
}
