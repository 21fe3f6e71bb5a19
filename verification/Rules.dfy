/** Kernel filter rules, the kernel's matcher, and what its comparison of network bytes means. */
module Rules {
  import opened Words
  import opened Filter
  import opened Cube
  import opened Bits

  /** The bits of `match_mask` and `invert_mask`. */
  datatype Match =
    | SRC_IP | DST_IP | SRC_PORT | DST_PORT | PROTO | DIRECTION | LOOPBACK_BIT
    | NEVER | ENABLED | SNIFF | DROP | TTL | TCP_FLAGS

  /** The part of a rule both families share. */
  datatype Common = Common(active: set<Match>, inverted: set<Match>, proto: u8, direction: nat, loopback: int, ttl: u8,
                           tcpFlags: Flags, tcpMask: Flags,
                           srcStart: u16, srcEnd: u16, dstStart: u16, dstEnd: u16)

  datatype Rule4 = Rule4(srcIp: u32, srcMask: u32, dstIp: u32, dstMask: u32, common: Common)

  type Bytes16 = b: seq<u8> | |b| == 16 witness [0, 0, 0, 0, 0, 0, 0, 0, 0, 0, 0, 0, 0, 0, 0, 0]

  datatype Rule6 = Rule6(srcIp: Bytes16, srcMask: Bytes16, dstIp: Bytes16, dstMask: Bytes16, common: Common)

  /** One condition of a rule: if it is active, `holds` must differ from its inversion. */
  predicate Cond(r: Common, m: Match, holds: bool) {
    m in r.active ==> holds != (m in r.inverted)
  }

  predicate MatchesCommon(r: Common, a: Attrs) {
    && Cond(r, SRC_PORT, r.srcStart <= a.sport <= r.srcEnd)
    && Cond(r, DST_PORT, r.dstStart <= a.dport <= r.dstEnd)
    && Cond(r, PROTO, a.proto == r.proto)
    && Cond(r, DIRECTION, a.dir == r.direction)
    && Cond(r, TTL, a.ttl == r.ttl)
    && Cond(r, TCP_FLAGS, a.tcpFlags * r.tcpMask == r.tcpFlags)
    && (LOOPBACK_BIT in r.active ==> a.loopback == r.loopback)
  }

  predicate Armed(r: Common) {
    ENABLED in r.active && NEVER !in r.active
  }

  predicate Matches4(r: Rule4, a: Attrs) {
    && Armed(r.common) && a.ver == 4
    && Cond(r.common, SRC_IP, MaskedEq(a.src[0], r.srcIp, r.srcMask))
    && Cond(r.common, DST_IP, MaskedEq(a.dst[0], r.dstIp, r.dstMask))
    && MatchesCommon(r.common, a)
  }

  /** A little-endian load of bytes. */
  function Load(b: seq<u8>): nat {
    if b == [] then 0 else b[0] + 0x100 * Load(b[1..])
  }

  /** The kernel compares 16 bytes as two 64-bit loads. */
  predicate SameUnderMask(a: Bytes16, b: Bytes16, m: Bytes16) {
    && MaskedEq(Load(a[..8]), Load(b[..8]), Load(m[..8]))
    && MaskedEq(Load(a[8..]), Load(b[8..]), Load(m[8..]))
  }

  predicate Matches6(r: Rule6, a: Attrs) {
    && Armed(r.common) && a.ver == 6
    && Cond(r.common, SRC_IP, SameUnderMask(ToNet(a.src), r.srcIp, r.srcMask))
    && Cond(r.common, DST_IP, SameUnderMask(ToNet(a.dst), r.dstIp, r.dstMask))
    && MatchesCommon(r.common, a)
  }

  /** Four host-order words as 16 network-order bytes. */
  function ToNet(w: Words): Bytes16 {
    WordBytes(w[3]) + WordBytes(w[2]) + WordBytes(w[1]) + WordBytes(w[0])
  }

  function WordBytes(x: u32): (b: seq<u8>)
    ensures |b| == 4
  {
    [x / 0x100_0000, x / 0x1_0000 % 0x100, x / 0x100 % 0x100, x % 0x100]
  }

  /** The number big-endian bytes denote. */
  function Number(b: seq<u8>): nat {
    if b == [] then 0 else Number(b[..|b| - 1]) * 0x100 + b[|b| - 1]
  }

  predicate BytesAgree(a: seq<u8>, b: seq<u8>, m: seq<u8>)
    requires |a| == |b| == |m|
  {
    forall j :: 0 <= j < |a| ==> MaskedEq(a[j], b[j], m[j])
  }

  /** A masked comparison splits at a byte boundary. */
  lemma ByteSplit(x: nat, xb: u8, y: nat, yb: u8, m: nat, mb: u8)
    ensures MaskedEq(x * 0x100 + xb, y * 0x100 + yb, m * 0x100 + mb) <==> MaskedEq(x, y, m) && MaskedEq(xb, yb, mb)
  {
    Pow2Values();
    hide And, Pow2;
    MaskedEqSplit(x, xb, y, yb, m, mb, 8);
  }

  /** A masked comparison of loaded bytes is the byte-wise one. */
  lemma {:induction false} LoadAgree(a: seq<u8>, b: seq<u8>, m: seq<u8>)
    requires |a| == |b| == |m|
    ensures MaskedEq(Load(a), Load(b), Load(m)) <==> BytesAgree(a, b, m)
  {
    if a == [] {
      hide And;
    } else {
      hide MaskedEq, BytesAgree;
      LoadAgree(a[1..], b[1..], m[1..]);
      ByteSplit(Load(a[1..]), a[0], Load(b[1..]), b[0], Load(m[1..]), m[0]);
      FirstByte(a, b, m);
    }
  }

  lemma FirstByte(a: seq<u8>, b: seq<u8>, m: seq<u8>)
    requires |a| == |b| == |m| > 0
    ensures BytesAgree(a, b, m) <==> MaskedEq(a[0], b[0], m[0]) && BytesAgree(a[1..], b[1..], m[1..])
  {
    hide MaskedEq;
    if BytesAgree(a[1..], b[1..], m[1..]) {
      forall j | 1 <= j < |a| ensures MaskedEq(a[j], b[j], m[j]) {
        assert MaskedEq(a[1..][j - 1], b[1..][j - 1], m[1..][j - 1]);
      }
    }
  }

  lemma LastByte(a: seq<u8>, b: seq<u8>, m: seq<u8>, n: nat)
    requires |a| == |b| == |m| == n + 1
    ensures BytesAgree(a, b, m) <==> MaskedEq(a[n], b[n], m[n]) && BytesAgree(a[..n], b[..n], m[..n])
  {
    hide MaskedEq;
    if BytesAgree(a[..n], b[..n], m[..n]) {
      forall j | 0 <= j < n ensures MaskedEq(a[j], b[j], m[j]) {
        assert MaskedEq(a[..n][j], b[..n][j], m[..n][j]);
      }
    }
  }

  /** So is a masked comparison of big-endian numbers. */
  lemma {:induction false} NumberAgree(a: seq<u8>, b: seq<u8>, m: seq<u8>)
    requires |a| == |b| == |m|
    ensures MaskedEq(Number(a), Number(b), Number(m)) <==> BytesAgree(a, b, m)
  {
    if a == [] {
      hide And;
    } else {
      hide MaskedEq, BytesAgree, Number;
      var n := |a| - 1;
      NumberLast(a);
      NumberLast(b);
      NumberLast(m);
      NumberAgree(a[..n], b[..n], m[..n]);
      ByteSplit(Number(a[..n]), a[n], Number(b[..n]), b[n], Number(m[..n]), m[n]);
      LastByte(a, b, m, n);
    }
  }

  lemma NumberLast(b: seq<u8>)
    requires b != []
    ensures Number(b) == Number(b[..|b| - 1]) * 0x100 + b[|b| - 1]
  {
  }

  lemma NumberSnoc(s: seq<u8>, c: u8)
    ensures Number(s + [c]) == Number(s) * 0x100 + c
  {
    assert (s + [c])[..|s|] == s;
  }

  lemma {:induction false} NumberAppend(a: seq<u8>, b: seq<u8>, base: nat)
    requires base == Pow2(8 * |b|)
    ensures Number(a + b) == Number(a) * base + Number(b)
  {
    hide Number;
    if b == [] {
      assert a + b == a;
      NoBytes(b);
    } else {
      var n := |b| - 1;
      var low := Pow2(8 * n);
      BytePower(n);
      NumberAppend(a, b[..n], low);
      assert a + b == a + b[..n] + [b[n]];
      assert b == b[..n] + [b[n]];
      NumberSnoc(a + b[..n], b[n]);
      NumberSnoc(b[..n], b[n]);
      Rescale(Number(a), low, Number(b[..n]), b[n]);
    }
  }

  lemma NoBytes(b: seq<u8>)
    requires b == []
    ensures Number(b) == 0 && Pow2(0) == 1
  {
  }

  lemma BytePower(n: nat)
    ensures Pow2(8 * (n + 1)) == 0x100 * Pow2(8 * n)
  {
    Pow2Values();
    Pow2Sum(8, 8 * n);
  }

  lemma Rescale(x: nat, p: nat, y: nat, z: nat)
    ensures (x * p + y) * 0x100 + z == x * (0x100 * p) + (y * 0x100 + z)
  {
    assert x * (0x100 * p) == x * p * 0x100;
  }

  lemma NumberOfFour(b: seq<u8>)
    requires |b| == 4
    ensures var b0: nat, b1: nat, b2: nat, b3: nat := b[0], b[1], b[2], b[3];
            Number(b) == ((b0 * 0x100 + b1) * 0x100 + b2) * 0x100 + b3
  {
    NoBytes(b[..0]);
    hide Number;
    NumberNext(b, 0);
    NumberNext(b, 1);
    NumberNext(b, 2);
    NumberNext(b, 3);
    assert b[..4] == b;
  }

  lemma NumberNext(b: seq<u8>, n: nat)
    requires n < |b|
    ensures Number(b[..n + 1]) == Number(b[..n]) * 0x100 + b[n]
  {
    assert b[..n + 1] == b[..n] + [b[n]];
    NumberSnoc(b[..n], b[n]);
  }

  lemma WordBytesNumber(x: u32)
    ensures Number(WordBytes(x)) == x
  {
    hide Number;
    NumberOfFour(WordBytes(x));
    var a, b, c := x / 0x100_0000, x / 0x1_0000, x / 0x100;
    assert b == a * 0x100 + b % 0x100;
    assert c == b * 0x100 + c % 0x100;
    assert x == c * 0x100 + x % 0x100;
  }

  /** Network bytes denote the same number as the words. */
  lemma ToNetNumber(w: Words)
    ensures Number(ToNet(w)) == Val(w)
  {
    Pow2Values();
    NumberAppend(WordBytes(w[3]), WordBytes(w[2]), B32);
    NumberAppend(WordBytes(w[3]) + WordBytes(w[2]), WordBytes(w[1]), B32);
    NumberAppend(WordBytes(w[3]) + WordBytes(w[2]) + WordBytes(w[1]), WordBytes(w[0]), B32);
    WordBytesNumber(w[0]);
    WordBytesNumber(w[1]);
    WordBytesNumber(w[2]);
    WordBytesNumber(w[3]);
  }

  /** The kernel's comparison of network bytes is the comparison of 128-bit numbers. */
  lemma NetCompare(a: Words, b: Words, m: Words)
    ensures SameUnderMask(ToNet(a), ToNet(b), ToNet(m)) <==> MaskedEq(Val(a), Val(b), Val(m))
  {
    hide And;
    var x, y, z := ToNet(a), ToNet(b), ToNet(m);
    ToNetNumber(a);
    ToNetNumber(b);
    ToNetNumber(m);
    NumberAgree(x, y, z);
    LoadAgree(x[..8], y[..8], z[..8]);
    LoadAgree(x[8..], y[8..], z[8..]);
    if BytesAgree(x[..8], y[..8], z[..8]) && BytesAgree(x[8..], y[8..], z[8..]) {
      forall j | 0 <= j < 16 ensures MaskedEq(x[j], y[j], z[j]) {
        if j < 8 {
          assert MaskedEq(x[..8][j], y[..8][j], z[..8][j]);
        } else {
          assert MaskedEq(x[8..][j - 8], y[8..][j - 8], z[8..][j - 8]);
        }
      }
    }
  }
}
