/** The receive queue of a handle. */
module Queue {
  import opened Filter

  const LENGTH_MIN := 32
  const LENGTH_MAX := 16384
  const LENGTH_DEFAULT := 4096
  const TIME_MIN := 100
  const TIME_MAX := 16000
  const TIME_DEFAULT := 2000
  const SIZE_MIN := 65535
  const SIZE_MAX := 33554432
  const SIZE_DEFAULT := 4194304

  datatype Entry = Entry(len: nat, timestamp: int, data: seq<nat>)

  datatype Param = QueueLength | QueueTime | QueueSize | Unknown

  function Bytes(entries: seq<Entry>): nat {
    if entries == [] then 0 else entries[0].len + Bytes(entries[1..])
  }

  lemma {:induction false} BytesAppend(entries: seq<Entry>, e: Entry)
    ensures Bytes(entries + [e]) == Bytes(entries) + e.len
  {
    if entries != [] {
      assert (entries + [e])[1..] == entries[1..] + [e];
      BytesAppend(entries[1..], e);
    }
  }

  predicate Ascending(s: seq<nat>) {
    forall i, j :: 0 <= i < j < |s| ==> s[i] < s[j]
  }

  /** How many entries at the head have waited longer than `time` milliseconds. */
  function Expired(entries: seq<Entry>, now: int, time: nat): (n: nat)
    ensures n <= |entries|
    ensures forall k :: 0 <= k < n ==> now - entries[k].timestamp > time * 1000000
    ensures n < |entries| ==> now - entries[n].timestamp <= time * 1000000
  {
    if entries == [] || now - entries[0].timestamp <= time * 1000000 then 0
    else 1 + Expired(entries[1..], now, time)
  }

  /** Nothing is lost or reordered: what was delivered and what waits are arrivals in their
      order, and the rest was counted as dropped. */
  ghost predicate Ordered(arrivals: seq<Entry>, delivered: seq<nat>, waiting: seq<nat>, entries: seq<Entry>,
                          drops: nat) {
    && |waiting| == |entries|
    && (forall i :: 0 <= i < |waiting| ==> waiting[i] < |arrivals| && arrivals[waiting[i]] == entries[i])
    && (forall i :: 0 <= i < |delivered| ==> delivered[i] < |arrivals|)
    && Ascending(delivered + waiting)
    && |arrivals| == |delivered| + |entries| + drops
  }

  lemma OrderedArrival(arrivals: seq<Entry>, delivered: seq<nat>, waiting: seq<nat>, entries: seq<Entry>, drops: nat,
                       e: Entry)
    requires Ordered(arrivals, delivered, waiting, entries, drops)
    ensures Ordered(arrivals + [e], delivered, waiting, entries, drops + 1)
    ensures Ordered(arrivals + [e], delivered, waiting + [|arrivals|], entries + [e], drops)
  {
    var before, after := delivered + waiting, delivered + (waiting + [|arrivals|]);
    assert after == before + [|arrivals|];
    forall i | 0 <= i < |before|
      ensures before[i] < |arrivals|
    {
      assert before[i] == if i < |delivered| then delivered[i] else waiting[i - |delivered|];
    }
  }

  lemma OrderedHead(arrivals: seq<Entry>, delivered: seq<nat>, waiting: seq<nat>, entries: seq<Entry>, drops: nat)
    requires Ordered(arrivals, delivered, waiting, entries, drops) && entries != []
    ensures Ordered(arrivals, delivered + [waiting[0]], waiting[1..], entries[1..], drops)
    ensures Ordered(arrivals, delivered, waiting[1..], entries[1..], drops + 1)
  {
    var all := delivered + waiting;
    assert delivered + [waiting[0]] + waiting[1..] == all;
    var rest := delivered + waiting[1..];
    forall i, j | 0 <= i < j < |rest|
      ensures rest[i] < rest[j]
    {
      var n := |delivered|;
      assert rest[i] == all[if i < n then i else i + 1];
      assert rest[j] == all[if j < n then j else j + 1];
    }
  }

  lemma ExpiredHead(entries: seq<Entry>, now: int, time: nat)
    requires entries != []
    ensures Expired(entries, now, time) ==
            if now - entries[0].timestamp <= time * 1000000 then 0 else 1 + Expired(entries[1..], now, time)
  {
  }

  lemma ExpiredNone(now: int, time: nat)
    ensures Expired([], now, time) == 0
  {
  }

  lemma DropNext<T>(s: seq<T>, k: nat)
    requires k < |s|
    ensures s[k..][1..] == s[k + 1..] && s[k..][0] == s[k]
  {
  }

  class ReceiveQueue {
    var entries: seq<Entry>
    var qlen: nat
    var qbytes: nat
    var wakeSet: bool
    var shutRecv: bool
    var queueLength: nat
    var queueTime: nat
    var queueSize: nat
    var queueDrops: nat

    // The history: every entry ever pushed, in order; the arrival numbers of those waiting and
    // of those handed to a receiver.
    ghost var arrivals: seq<Entry>
    ghost var waiting: seq<nat>
    ghost var delivered: seq<nat>

    constructor ()
      ensures Valid() && arrivals == [] && entries == [] && !shutRecv
      ensures queueLength == LENGTH_DEFAULT && queueTime == TIME_DEFAULT && queueSize == SIZE_DEFAULT
    {
      entries, qlen, qbytes, wakeSet, shutRecv, queueDrops := [], 0, 0, false, false, 0;
      queueLength, queueTime, queueSize := LENGTH_DEFAULT, TIME_DEFAULT, SIZE_DEFAULT;
      arrivals, waiting, delivered := [], [], [];
    }

    /** Counters and limits describe the list, and the history accounts for every arrival. */
    ghost predicate Sound()
      reads this`entries, this`qlen, this`qbytes, this`queueLength, this`queueTime, this`queueSize, this`queueDrops,
            this`arrivals, this`waiting, this`delivered
    {
      && qlen == |entries| <= LENGTH_MAX && qbytes == Bytes(entries) <= SIZE_MAX
      && LENGTH_MIN <= queueLength <= LENGTH_MAX && TIME_MIN <= queueTime <= TIME_MAX
      && SIZE_MIN <= queueSize <= SIZE_MAX
      && Ordered(arrivals, delivered, waiting, entries, queueDrops)
    }

    /** The wake descriptor is readable exactly when a receiver has something to do. */
    ghost predicate Valid()
      reads this
    {
      Sound() && (wakeSet <==> entries != [] || shutRecv)
    }

    method WakeUpdate()
      modifies this`wakeSet
      ensures wakeSet <==> entries != [] || shutRecv
    {
      var want := entries != [] || shutRecv;
      if want && !wakeSet {
        wakeSet := true;
      } else if !want && wakeSet {
        wakeSet := false;
      }
    }

    /** Appends an entry, or counts a drop if the queue is full in number or in bytes. */
    method Push(e: Entry)
      requires Valid()
      modifies this
      ensures Valid() && arrivals == old(arrivals) + [e] && delivered == old(delivered)
      ensures shutRecv == old(shutRecv)
      ensures if old(qlen < queueLength && qbytes + e.len <= queueSize)
              then entries == old(entries) + [e] && queueDrops == old(queueDrops)
              else entries == old(entries) && queueDrops == old(queueDrops) + 1
    {
      hide Ordered, Bytes;
      OrderedArrival(arrivals, delivered, waiting, entries, queueDrops, e);
      ghost var number := |arrivals|;
      arrivals := arrivals + [e];
      if qlen >= queueLength || qbytes + e.len > queueSize {
        queueDrops := queueDrops + 1;
        return;
      }
      BytesAppend(entries, e);
      entries := entries + [e];
      waiting := waiting + [number];
      qlen := qlen + 1;
      qbytes := qbytes + e.len;
      WakeUpdate();
    }

    /** Takes the first entry off the list: it is delivered if it is in time, else dropped. */
    method Unlink(now: int) returns (head: Entry, live: bool)
      requires Sound() && entries != []
      modifies this`entries, this`qlen, this`qbytes, this`queueDrops, this`waiting, this`delivered
      ensures Sound() && |old(waiting)| == |old(entries)| && head == old(entries)[0]
      ensures entries == old(entries)[1..] && waiting == old(waiting)[1..]
      ensures live <==> now - head.timestamp <= queueTime * 1000000
      ensures queueDrops == old(queueDrops) + (if live then 0 else 1)
      ensures delivered == old(delivered) + (if live then [old(waiting)[0]] else [])
    {
      hide Ordered;
      SameLength();
      OrderedHead(arrivals, delivered, waiting, entries, queueDrops);
      head := entries[0];
      ghost var number := waiting[0];
      entries := entries[1..];
      waiting := waiting[1..];
      qlen := qlen - 1;
      qbytes := qbytes - head.len;
      live := now - head.timestamp <= queueTime * 1000000;
      if live {
        delivered := delivered + [number];
      } else {
        queueDrops := queueDrops + 1;
        assert delivered + [] == delivered;
      }
    }

    lemma SameLength()
      requires Sound()
      ensures |waiting| == |entries|
    {
    }

    /** Hands out the oldest entry that has not expired; the expired ones before it are dropped. */
    method Pop(now: int) returns (e: Option<Entry>)
      requires Valid()
      modifies this
      ensures Valid() && arrivals == old(arrivals) && shutRecv == old(shutRecv)
      ensures var n := Expired(old(entries), now, old(queueTime));
              && queueDrops == old(queueDrops) + n
              && (n == |old(entries)| ==> e == None && entries == [] && delivered == old(delivered))
              && (n < |old(entries)| ==>
                    && e == Some(old(entries)[n]) && entries == old(entries)[n + 1..]
                    && |old(waiting)| == |old(entries)| && delivered == old(delivered) + [old(waiting)[n]])
    {
      hide ReceiveQueue.Sound, Expired;
      ghost var k, all, numbers := 0, entries, waiting;
      SameLength();
      e := None;
      while entries != []
        invariant Sound() && 0 <= k <= |all| && entries == all[k..] && waiting == numbers[k..]
        invariant Expired(all, now, queueTime) == k + Expired(entries, now, queueTime)
        invariant delivered == old(delivered) && queueDrops == old(queueDrops) + k
        invariant arrivals == old(arrivals) && shutRecv == old(shutRecv) && queueTime == old(queueTime)
        decreases |entries|
      {
        DropNext(all, k);
        DropNext(numbers, k);
        ExpiredHead(entries, now, queueTime);
        var head, live := Unlink(now);
        if live {
          e := Some(head);
          break;
        }
        k := k + 1;
      }
      ExpiredNone(now, queueTime);
      WakeUpdate();
    }

    method Shutdown()
      requires Valid()
      modifies this
      ensures Valid() && shutRecv && wakeSet
      ensures arrivals == old(arrivals) && entries == old(entries) && delivered == old(delivered)
    {
      shutRecv := true;
      WakeUpdate();
    }

    /** Changes a limit if the value is allowed; entries already queued stay. */
    method SetParam(param: Param, value: nat) returns (ok: bool)
      requires Valid()
      modifies this`queueLength, this`queueTime, this`queueSize
      ensures Valid()
      ensures ok == match param
                    case QueueLength => LENGTH_MIN <= value <= LENGTH_MAX
                    case QueueTime => TIME_MIN <= value <= TIME_MAX
                    case QueueSize => SIZE_MIN <= value <= SIZE_MAX
                    case Unknown => false
      ensures queueLength == (if ok && param == QueueLength then value else old(queueLength))
      ensures queueTime == (if ok && param == QueueTime then value else old(queueTime))
      ensures queueSize == (if ok && param == QueueSize then value else old(queueSize))
    {
      match param
      case QueueLength =>
        if value < LENGTH_MIN || value > LENGTH_MAX { return false; }
        queueLength := value;
        return true;
      case QueueTime =>
        if value < TIME_MIN || value > TIME_MAX { return false; }
        queueTime := value;
        return true;
      case QueueSize =>
        if value < SIZE_MIN || value > SIZE_MAX { return false; }
        queueSize := value;
        return true;
      case Unknown =>
        return false;
    }
  }
}
