/** Internet checksums (RFC 1071) as the library computes, patches and re-uses them. */
module Checksum {
  import opened Words

  /** The sum of a byte string as 16-bit words in memory order, the first byte the low one; a last
      odd byte is padded with zero. */
  function SumLE(b: seq<u8>): nat {
    if |b| == 0 then 0
    else if |b| == 1 then b[0]
    else Word(b[0], b[1]) + SumLE(b[2..])
  }

  /** The same with the first byte the high one, that is in network order. */
  function SumBE(b: seq<u8>): nat {
    if |b| == 0 then 0
    else if |b| == 1 then Word(0, b[0])
    else Word(b[1], b[0]) + SumBE(b[2..])
  }

  function Word(lo: u8, hi: u8): u16 {
    var l: nat := lo;
    var h: nat := hi;
    l + 0x100 * h
  }

  /** The one's-complement sum of 16-bit words whose plain sum is `s`. */
  function Reduce(s: nat): u16 {
    if s == 0 then 0 else (s - 1) % 0xFFFF + 1
  }

  lemma ReduceUnique(s: nat, r: nat, k: int)
    requires s == r + 0xFFFF * k && r <= 0xFFFF && (r == 0 <==> s == 0)
    ensures Reduce(s) == r
  {
    if s != 0 {
      assert s - 1 == (r - 1) + 0xFFFF * k;
      assert (s - 1) % 0xFFFF == r - 1;
    }
  }

  /** Folding the high half into the low one keeps the one's-complement sum. */
  lemma FoldStep(s: nat)
    ensures Reduce(s % 0x1_0000 + s / 0x1_0000) == Reduce(s)
  {
    var f := s % 0x1_0000 + s / 0x1_0000;
    assert s == f + 0xFFFF * (s / 0x1_0000);
    if s != 0 {
      var r := Reduce(f);
      var k := (f - 1) / 0xFFFF;
      assert f == r + 0xFFFF * k;
      ReduceUnique(s, r, k + s / 0x1_0000);
    }
  }

  /** Two folds are the whole reduction of a 32-bit sum. */
  lemma TwoFolds(s: u32)
    ensures var once := s % 0x1_0000 + s / 0x1_0000;
            (once + once / 0x1_0000) % 0x1_0000 == Reduce(s)
  {
    var once := s % 0x1_0000 + s / 0x1_0000;
    FoldStep(s);
    if once < 0x1_0000 {
      ReduceUnique(once, once, 0);
    } else {
      ReduceUnique(once, once - 0xFFFF, 1);
    }
  }

  lemma {:induction false} SumBound(b: seq<u8>)
    ensures SumLE(b) <= 0xFFFF * ((|b| + 1) / 2) && SumBE(b) <= 0xFFFF * ((|b| + 1) / 2)
  {
    if |b| >= 2 {
      SumBound(b[2..]);
    }
  }

  lemma {:induction false} SumAppend(b: seq<u8>, k: nat)
    requires 2 * k <= |b|
    ensures SumLE(b) == SumLE(b[..2 * k]) + SumLE(b[2 * k..])
    ensures SumBE(b) == SumBE(b[..2 * k]) + SumBE(b[2 * k..])
  {
    if k == 0 {
      assert b[..0] == [] && b[0..] == b;
    } else {
      SumAppend(b[2..], k - 1);
      assert b[2..][..2 * (k - 1)] == b[..2 * k][2..];
      assert b[2..][2 * (k - 1)..] == b[2 * k..];
    }
  }

  /** Adds up a byte string as the compiled code does, two bytes at a time. */
  method AddWords(start: u32, b: seq<u8>) returns (sum: u32)
    requires start + 0xFFFF * (|b| / 2) < B32
    ensures sum == start + SumLE(b[..|b| / 2 * 2])
  {
    sum := start;
    for i := 0 to |b| / 2
      invariant sum == start + SumLE(b[..2 * i]) <= start + 0xFFFF * i
    {
      ghost var next := b[..2 * i + 2];
      SumAppend(next, i);
      assert next[..2 * i] == b[..2 * i] && next[2 * i..] == [b[2 * i], b[2 * i + 1]];
      WordSum(b[2 * i], b[2 * i + 1]);
      assert 2 * (i + 1) == 2 * i + 2;
      sum := sum + Word(b[2 * i], b[2 * i + 1]);
    }
  }

  lemma WordSum(x: u8, y: u8)
    ensures SumLE([x, y]) == Word(x, y) && SumBE([x, y]) == Word(y, x)
  {
    assert [x, y][2..] == [];
  }

  /** The plain sum; no packet the library accepts overflows the 32-bit accumulator. */
  method SumWords(pseudo: seq<u8>, data: seq<u8>) returns (total: u32)
    requires |pseudo| <= 40 && |pseudo| % 2 == 0 && |data| <= 40 + 0xFFFF
    ensures total == SumLE(pseudo) + SumLE(data)
  {
    hide SumLE;
    assert pseudo[..|pseudo| / 2 * 2] == pseudo;
    SumBound(pseudo);
    SumBound(data[..|data| / 2 * 2]);
    SumAppend(data, |data| / 2);
    total := AddWords(0, pseudo);
    total := AddWords(total, data);
    if |data| % 2 == 1 {
      OddByte(data);
      var last: nat := data[|data| - 1];
      total := total + last;
    } else {
      NoByte(data[|data| / 2 * 2..]);
    }
  }

  /** The complement of the one's-complement sum of pseudo header and data, in memory order. */
  method CalcChecksum(pseudo: seq<u8>, data: seq<u8>) returns (sum: u16)
    requires |pseudo| <= 40 && |pseudo| % 2 == 0 && |data| <= 40 + 0xFFFF
    ensures sum == 0xFFFF - Reduce(SumLE(pseudo) + SumLE(data))
  {
    hide SumLE, Reduce;
    var total := SumWords(pseudo, data);
    TwoFolds(total);
    var once: nat := total % 0x1_0000 + total / 0x1_0000;
    var twice: nat := once + once / 0x1_0000;
    sum := 0xFFFF - twice % 0x1_0000;
  }

  lemma OddByte(b: seq<u8>)
    requires |b| % 2 == 1
    ensures SumLE(b[|b| / 2 * 2..]) == b[|b| - 1]
  {
  }

  lemma NoByte(b: seq<u8>)
    requires b == []
    ensures SumLE(b) == 0
  {
  }

  /** Folds until nothing is left to fold. */
  method CsumFold32(start: u32) returns (r: u16)
    ensures r == Reduce(start)
  {
    var sum: nat := start;
    while sum / 0x1_0000 != 0
      invariant Reduce(sum) == Reduce(start)
      decreases sum
    {
      FoldStep(sum);
      sum := sum % 0x1_0000 + sum / 0x1_0000;
    }
    ReduceUnique(sum, sum, 0);
    r := sum;
  }

  method CsumAdd(start: u32, p: seq<u8>) returns (sum: u32)
    requires start + 0xFFFF * ((|p| + 1) / 2) < B32
    ensures sum == start + SumBE(p)
  {
    hide SumBE;
    sum := start;
    var i := 0;
    EmptyBE(p[..0]);
    while i + 1 < |p|
      invariant 0 <= i <= |p| && i % 2 == 0
      invariant sum == start + SumBE(p[..i]) <= start + 0xFFFF * (i / 2)
    {
      NextWordBE(p, i);
      sum := sum + Word(p[i + 1], p[i]);
      i := i + 2;
    }
    SumAppend(p, i / 2);
    TailBE(p[i..]);
    if |p| % 2 == 1 {
      sum := sum + Word(0, p[|p| - 1]);
    }
  }

  lemma NextWordBE(p: seq<u8>, i: nat)
    requires i + 1 < |p| && i % 2 == 0
    ensures SumBE(p[..i + 2]) == SumBE(p[..i]) + Word(p[i + 1], p[i])
  {
    hide SumBE;
    var next := p[..i + 2];
    SumAppend(next, i / 2);
    assert next[..i] == p[..i] && next[i..] == [p[i], p[i + 1]];
    WordSum(p[i], p[i + 1]);
  }

  lemma EmptyBE(b: seq<u8>)
    requires b == []
    ensures SumBE(b) == 0
  {
  }

  lemma TailBE(b: seq<u8>)
    requires |b| <= 1
    ensures SumBE(b) == if |b| == 1 then Word(0, b[0]) else 0
  {
  }

  function Swap(x: u16): u16 {
    x % 0x100 * 0x100 + x / 0x100
  }

  lemma {:induction false} SwapSum(b: seq<u8>)
    ensures exists k: int :: 0x100 * SumLE(b) == SumBE(b) + 0xFFFF * k
    ensures SumLE(b) == 0 <==> SumBE(b) == 0
  {
    if |b| == 0 {
      assert 0x100 * SumLE(b) == SumBE(b) + 0xFFFF * 0;
    } else if |b| == 1 {
      assert 0x100 * SumLE(b) == SumBE(b) + 0xFFFF * 0;
    } else {
      SwapSum(b[2..]);
      var k: int :| 0x100 * SumLE(b[2..]) == SumBE(b[2..]) + 0xFFFF * k;
      var hi: int := b[1];
      assert 0x100 * SumLE(b) == SumBE(b) + 0xFFFF * (k + hi);
    }
  }

  /** Section 2(B) of RFC 1071: summing in the other byte order swaps the bytes of the sum. */
  lemma ByteOrderIndependence(b: seq<u8>)
    ensures Reduce(SumBE(b)) == Swap(Reduce(SumLE(b)))
  {
    hide SumLE, SumBE;
    SwapSum(b);
    var le, be := SumLE(b), SumBE(b);
    var k: int :| 0x100 * le == be + 0xFFFF * k;
    if le != 0 {
      var r := Reduce(le);
      var m := (le - 1) / 0xFFFF;
      assert le == r + 0xFFFF * m;
      assert 0x100 * r == Swap(r) + 0xFFFF * (r / 0x100);
      ReduceUnique(be, Swap(r), 0x100 * m + r / 0x100 - k);
    }
  }

  lemma {:induction false} SumUpdate(b: seq<u8>, i: nat, x: u8)
    requires i < |b|
    ensures i % 2 == 0 ==> SumLE(b[i := x]) + b[i] == SumLE(b) + x
    ensures i % 2 == 1 ==> SumLE(b[i := x]) + Word(0, b[i]) == SumLE(b) + Word(0, x)
  {
    if i >= 2 {
      assert b[i := x][2..] == b[2..][i - 2 := x];
      SumUpdate(b[2..], i - 2, x);
    } else if |b| >= 2 {
      assert b[i := x][2..] == b[2..];
    }
  }

  /** The two bytes at `at` hold `w` in memory order. */
  function Stored(b: seq<u8>, at: nat, w: u16): seq<u8>
    requires at + 2 <= |b|
  {
    b[at := w % 0x100][at + 1 := w / 0x100]
  }

  lemma StoredSum(b: seq<u8>, at: nat, w: u16)
    requires at + 2 <= |b| && at % 2 == 0
    ensures SumLE(Stored(b, at, w)) == SumLE(Stored(b, at, 0)) + w
  {
    hide SumLE;
    var zero := Stored(b, at, 0);
    var lo: u8, hi: u8 := w % 0x100, w / 0x100;
    var half := zero[at := lo];
    SumUpdate(zero, at, lo);
    SumUpdate(half, at + 1, hi);
    assert half[at + 1 := hi] == Stored(b, at, w);
  }

  /** A checksum computed with its field zero and stored there makes pseudo header and data sum to all
      ones; apart from the second form of zero, no other value does. */
  lemma ChecksumVerifies(pseudo: seq<u8>, data: seq<u8>, at: nat, w: u16)
    requires at + 2 <= |data| && at % 2 == 0
    ensures var c := 0xFFFF - Reduce(SumLE(pseudo) + SumLE(Stored(data, at, 0)));
            Reduce(SumLE(pseudo) + SumLE(Stored(data, at, w))) == 0xFFFF <==> w == c || (c == 0 && w == 0xFFFF)
  {
    hide SumLE, Stored, Reduce;
    StoredSum(data, at, w);
    VerifiesIff(SumLE(pseudo) + SumLE(Stored(data, at, 0)), w);
  }

  lemma VerifiesIff(rest: nat, w: u16)
    ensures var c := 0xFFFF - Reduce(rest); Reduce(rest + w) == 0xFFFF <==> w == c || (c == 0 && w == 0xFFFF)
  {
    var r := Reduce(rest);
    if rest == 0 {
      if w != 0 {
        ReduceUnique(w, w, 0);
      }
    } else {
      var k := (rest - 1) / 0xFFFF;
      assert rest == r + 0xFFFF * k;
      if r + w <= 0xFFFF {
        ReduceUnique(rest + w, r + w, k);
      } else {
        ReduceUnique(rest + w, r + w - 0xFFFF, k + 1);
      }
    }
  }

  /** The checksum field of an IPv4 header, and the sum of the header without it. */
  function Field(header: seq<u8>): u16
    requires |header| >= 12
  {
    Word(header[10], header[11])
  }

  function RestSum(header: seq<u8>): nat
    requires |header| >= 12
  {
    SumLE(header[10 := 0][11 := 0])
  }

  lemma RestSumIs(header: seq<u8>)
    requires |header| >= 12
    ensures SumLE(header) == RestSum(header) + Field(header)
  {
    hide SumLE;
    SumUpdate(header, 10, 0);
    SumUpdate(header[10 := 0], 11, 0);
  }

  /** The incremental update of section 3 of RFC 1624 for a word that went down by one. */
  function Patched(c: u16): u16 {
    if c >= 0xFFFE then c - 0xFFFE else c + 1
  }

  lemma PatchIsRecomputed(rest: nat)
    requires rest >= 2
    ensures Patched(0xFFFF - Reduce(rest)) == 0xFFFF - Reduce(rest - 1)
  {
    var r, k := Reduce(rest), (rest - 1) / 0xFFFF;
    assert rest == r + 0xFFFF * k;
    if r == 1 {
      ReduceUnique(rest - 1, 0xFFFF, k - 1);
    } else {
      ReduceUnique(rest - 1, r - 1, k);
    }
  }

  lemma PatchKeepsValid(sum: nat, c: u16)
    requires sum >= c + 2 && Reduce(sum) == 0xFFFF
    ensures Reduce(sum - c - 1 + Patched(c)) == 0xFFFF
  {
    var k := (sum - 1) / 0xFFFF;
    assert sum == 0xFFFF + 0xFFFF * k;
    var sum' := sum - c - 1 + Patched(c);
    ReduceUnique(sum', 0xFFFF, if c >= 0xFFFE then k - 1 else k);
  }

  /** Decrements the TTL of an IPv4 packet or the hop limit of an IPv6 one; the IPv4 checksum is
      patched.  Over a header of any length, the patch of a checksum that was computed is what
      computing it again would give, and a checksum that verified still does. */
  method DecrementTTL(packet: array<u8>) returns (ok: bool)
    modifies packet
    ensures !ok ==> packet[..] == old(packet[..])
    ensures ok ==> packet.Length >= 20 && (old(packet[0]) as int / 16 == 4 || old(packet[0]) as int / 16 == 6)
    ensures packet.Length >= 20 && old(packet[0]) as int / 16 == 4 ==> (ok <==> old(packet[8]) > 1)
    ensures packet.Length >= 20 && old(packet[0]) as int / 16 == 6 ==>
              (ok <==> packet.Length >= 40 && old(packet[7]) > 1)
    ensures packet.Length >= 20 && old(packet[0]) as int / 16 == 6 && ok ==>
              packet[..] == old(packet[..])[7 := old(packet[7]) - 1]
    ensures packet.Length >= 20 && old(packet[0]) as int / 16 == 4 && ok ==>
              packet[8] == old(packet[8]) - 1 && SameElsewhere(old(packet[..]), packet[..])
    ensures packet.Length >= 20 && old(packet[0]) as int / 16 == 4 && ok ==>
              forall n :: 20 <= n <= packet.Length ==>
                var was, now := old(packet[..])[..n], packet[..n];
                && (Field(was) == 0xFFFF - Reduce(RestSum(was)) ==> Field(now) == 0xFFFF - Reduce(RestSum(now)))
                && (Reduce(SumLE(was)) == 0xFFFF ==> Reduce(SumLE(now)) == 0xFFFF)
  {
    if packet.Length < 20 {
      return false;
    }
    var ver := packet[0] as int / 16;
    if ver == 4 {
      if packet[8] <= 1 {
        return false;
      }
      ghost var was := packet[..];
      packet[8] := packet[8] - 1;
      var c: nat := Patched(Word(packet[10], packet[11]));
      packet[10], packet[11] := c % 0x100, c / 0x100;
      forall n | 20 <= n <= packet.Length
        ensures Field(was[..n]) == 0xFFFF - Reduce(RestSum(was[..n])) ==>
                  Field(packet[..n]) == 0xFFFF - Reduce(RestSum(packet[..n]))
        ensures Reduce(SumLE(was[..n])) == 0xFFFF ==> Reduce(SumLE(packet[..n])) == 0xFFFF
      {
        HeaderPatched(was[..n], packet[..n]);
      }
      return true;
    } else if ver == 6 {
      if packet.Length < 40 || packet[7] <= 1 {
        return false;
      }
      packet[7] := packet[7] - 1;
      return true;
    }
    return false;
  }

  predicate SameElsewhere(was: seq<u8>, now: seq<u8>) {
    |was| == |now| && forall i :: 0 <= i < |was| && i != 8 && i != 10 && i != 11 ==> was[i] == now[i]
  }

  lemma HeaderPatched(was: seq<u8>, now: seq<u8>)
    requires 20 <= |was| && SameElsewhere(was, now) && was[0] >= 16 && was[8] > 1 && now[8] == was[8] - 1
    requires Field(now) == Patched(Field(was))
    ensures Field(was) == 0xFFFF - Reduce(RestSum(was)) ==> Field(now) == 0xFFFF - Reduce(RestSum(now))
    ensures Reduce(SumLE(was)) == 0xFFFF ==> Reduce(SumLE(now)) == 0xFFFF
  {
    hide SumLE, RestSum, Field, Patched, Reduce;
    RestDrops(was, now);
    RestSumIs(was);
    RestSumIs(now);
    PatchNumbers(RestSum(was), Field(was));
  }

  lemma PatchNumbers(rest: nat, c: u16)
    requires rest >= 2
    ensures c == 0xFFFF - Reduce(rest) ==> Patched(c) == 0xFFFF - Reduce(rest - 1)
    ensures Reduce(rest + c) == 0xFFFF ==> Reduce(rest - 1 + Patched(c)) == 0xFFFF
  {
    hide Patched, Reduce;
    PatchIsRecomputed(rest);
    if Reduce(rest + c) == 0xFFFF {
      PatchKeepsValid(rest + c, c);
    }
  }

  lemma RestDrops(was: seq<u8>, now: seq<u8>)
    requires 20 <= |was| && SameElsewhere(was, now) && was[0] >= 16 && was[8] > 1 && now[8] == was[8] - 1
    ensures RestSum(now) == RestSum(was) - 1 && RestSum(was) >= 16
  {
    var bare := was[10 := 0][11 := 0];
    assert now[10 := 0][11 := 0] == bare[8 := now[8]];
    SumUpdate(bare, 8, now[8]);
    FirstWord(bare);
    hide SumLE;
  }

  lemma FirstWord(b: seq<u8>)
    requires |b| >= 2
    ensures SumLE(b) >= b[0]
  {
  }
}
