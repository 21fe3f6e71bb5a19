/** Machine words and the 128-bit values the filters are written in: four 32-bit
    words, word 0 the least significant. */
module Words {

  const B32: nat := 0x1_0000_0000
  const B64: nat := 0x1_0000_0000_0000_0000
  const B96: nat := 0x1_0000_0000_0000_0000_0000_0000
  const B128: nat := 0x1_0000_0000_0000_0000_0000_0000_0000_0000

  type u8 = x: nat | x < 0x100
  type u16 = x: nat | x < 0x1_0000
  type u32 = x: nat | x < 0x1_0000_0000

  /** A 128-bit value as the source stores it: `UINT32[4]`. */
  type Words = w: seq<u32> | |w| == 4 witness [0, 0, 0, 0]

  const ZEROES: Words := [0, 0, 0, 0]
  const ONES: Words := [0xFFFF_FFFF, 0xFFFF_FFFF, 0xFFFF_FFFF, 0xFFFF_FFFF]

  /** The number four words denote. */
  function Val(w: Words): nat {
    w[0] + B32 * w[1] + B64 * w[2] + B96 * w[3]
  }

  /** The words `::ffff:a.b.c.d` of an IPv4 address. */
  function MappedWords(a: u32): Words {
    [a, 0xFFFF, 0, 0]
  }

  predicate IsMapped(w: Words) {
    w[3] == 0 && w[2] == 0 && w[1] == 0xFFFF
  }

  const MAPPED_LO: Words := [0, 0xFFFF, 0, 0]
  const MAPPED_HI: Words := [0xFFFF_FFFF, 0xFFFF, 0, 0]

  lemma ValOfConstants()
    ensures Val(ZEROES) == 0 && Val(ONES) == B128 - 1
    ensures Val(MAPPED_LO) == 0xFFFF_0000_0000 && Val(MAPPED_HI) == 0xFFFF_FFFF_FFFF
  {
  }

  lemma ValBounds(w: Words)
    ensures Val(w) < B128
  {
  }

  /** The words of a number. */
  function WordsOf(n: nat): (w: Words)
    requires n < B128
    ensures Val(w) == n
  {
    var w0, w1, w2, w3 := n % B32, n / B32 % B32, n / B64 % B32, n / B96;
    assert n / B32 == n / B64 * B32 + w1;
    assert n / B64 == n / B96 * B32 + w2;
    [w0, w1, w2, w3]
  }

  /** The next and the previous address, wrapping around. */
  function Succ(w: Words): (r: Words)
    ensures Val(r) == (if Val(w) == B128 - 1 then 0 else Val(w) + 1)
  {
    ValBounds(w);
    WordsOf(if Val(w) == B128 - 1 then 0 else Val(w) + 1)
  }

  function Pred(w: Words): (r: Words)
    ensures Val(r) == (if Val(w) == 0 then B128 - 1 else Val(w) - 1)
  {
    ValBounds(w);
    WordsOf(if Val(w) == 0 then B128 - 1 else Val(w) - 1)
  }

  /** Words are determined by the number they denote. */
  lemma ValInjective(a: Words, b: Words)
    ensures Val(a) == Val(b) <==> a == b
  {
    if Val(a) == Val(b) {
      assert a[3] == b[3];
      assert a[2] == b[2];
      assert a[1] == b[1];
      assert a[0] == b[0];
      assert a == b;
    }
  }

  /** The IPv4-mapped words are exactly the numbers of `::ffff:0:0/96`. */
  lemma MappedIsInterval(w: Words)
    ensures IsMapped(w) <==> Val(MAPPED_LO) <= Val(w) <= Val(MAPPED_HI)
  {
    if Val(MAPPED_LO) <= Val(w) <= Val(MAPPED_HI) {
      assert w[3] == 0;
      assert w[2] == 0;
      assert w[1] == 0xFFFF;
    }
  }

  /** Word-wise comparison from the most significant word down. */
  method Cmp128(a: Words, b: Words) returns (sign: int)
    ensures sign == -1 || sign == 0 || sign == 1
    ensures sign < 0 <==> Val(a) < Val(b)
    ensures sign == 0 <==> Val(a) == Val(b)
  {
    var i := 3;
    while 0 <= i
      invariant -1 <= i <= 3
      invariant forall k :: i < k < 4 ==> a[k] == b[k]
    {
      if a[i] != b[i] {
        return if a[i] < b[i] then -1 else 1;
      }
      i := i - 1;
    }
    return 0;
  }

  /** Increment with the carry rippling upwards; all ones wraps to zero. */
  method Inc128(a: Words) returns (r: Words)
    ensures Val(r) == (if Val(a) == B128 - 1 then 0 else Val(a) + 1)
  {
    r := a;
    var i := 0;
    while i < 4
      invariant 0 <= i <= 4
      invariant forall k :: 0 <= k < i ==> a[k] == 0xFFFF_FFFF && r[k] == 0
      invariant forall k :: i <= k < 4 ==> r[k] == a[k]
    {
      r := r[i := if r[i] == 0xFFFF_FFFF then 0 else r[i] + 1];
      if r[i] != 0 {
        return;
      }
      i := i + 1;
    }
  }

  /** Decrement with the borrow rippling upwards; zero wraps to all ones. */
  method Dec128(a: Words) returns (r: Words)
    ensures Val(r) == (if Val(a) == 0 then B128 - 1 else Val(a) - 1)
  {
    r := a;
    var i := 0;
    while i < 4
      invariant 0 <= i <= 4
      invariant forall k :: 0 <= k < i ==> a[k] == 0 && r[k] == 0xFFFF_FFFF
      invariant forall k :: i <= k < 4 ==> r[k] == a[k]
    {
      var borrow := r[i] == 0;
      r := r[i := if borrow then 0xFFFF_FFFF else r[i] - 1];
      if !borrow {
        return;
      }
      i := i + 1;
    }
  }
}
