/** Which inputs a filter object could possibly accept, found by one backward pass. */
module Reach {
  import opened Words
  import opened Fields
  import opened Filter

  /** Does knowing the field's value decide the test? */
  predicate Decided(insn: Insn, f: Field) {
    insn.field == f && !insn.neg && insn.arg[1] == insn.arg[2] == insn.arg[3] == 0
  }

  /** What the pass computes: could the tests from `i` on end in ACCEPT, if field `f` is
      `n` and every other test may go either way?  A label it cannot follow counts as yes. */
  predicate May(obj: seq<Insn>, i: nat, f: Field, n: u32)
    requires i < |obj|
    decreases |obj| - i
  {
    var yes, no := MayLabel(obj, i, obj[i].success, f, n), MayLabel(obj, i, obj[i].failure, f, n);
    if yes == no || !Decided(obj[i], f) then yes || no
    else if Holds(obj[i].test, n, obj[i].arg[0]) then yes else no
  }

  predicate MayLabel(obj: seq<Insn>, i: nat, l: Label, f: Field, n: u32)
    requires i < |obj|
    decreases |obj| - i, 0
  {
    match l
    case Accept => true
    case Reject => false
    case Jump(t) => if i < t < |obj| then May(obj, t, f, n) else true
  }

  /** Wherever the filter tests `f`, the input has value `n` there. */
  ghost predicate Shows(obj: seq<Insn>, v: View, f: Field, n: u32) {
    forall i :: 0 <= i < |obj| && obj[i].field == f ==> FieldValue(v, f, obj[i].arg[1]) == Some(Small(n))
  }

  lemma DecidedTruth(obj: seq<Insn>, i: nat, f: Field, n: u32, v: View)
    requires i < |obj| && Decided(obj[i], f) && Shows(obj, v, f, n)
    ensures Truth(obj[i], v) == Holds(obj[i].test, n, obj[i].arg[0])
  {
    hide FieldValue;
    assert FieldValue(v, f, obj[i].arg[1]) == Some(Small(n));
  }

  /** The pass over-approximates: what it rules out, the evaluator rejects. */
  lemma {:induction false} MaySound(obj: seq<Insn>, i: nat, f: Field, n: u32, v: View)
    requires Forward(obj) && i < |obj| && Shows(obj, v, f, n)
    ensures Accepts(obj, Jump(i), v) ==> May(obj, i, f, n)
    decreases |obj| - i
  {
    hide FieldValue;
    if Decided(obj[i], f) {
      DecidedTruth(obj, i, f, n, v);
    }
    if obj[i].success.Jump? {
      MaySound(obj, obj[i].success.target, f, n, v);
    }
    if obj[i].failure.Jump? {
      MaySound(obj, obj[i].failure.target, f, n, v);
    }
    var next := if Truth(obj[i], v) then obj[i].success else obj[i].failure;
    assert Accepts(obj, Jump(i), v) == Accepts(obj, next, v);
    assert Accepts(obj, next, v) ==> MayLabel(obj, i, next, f, n);
  }

  /** A choice of outcome for every test, as far as `f == n` leaves a choice. */
  predicate Consistent(obj: seq<Insn>, f: Field, n: u32, choices: seq<bool>) {
    && |choices| == |obj|
    && forall i :: 0 <= i < |obj| && Decided(obj[i], f) ==> choices[i] == Holds(obj[i].test, n, obj[i].arg[0])
  }

  predicate Follows(obj: seq<Insn>, choices: seq<bool>, l: Label)
    requires Forward(obj) && |choices| == |obj| && InObject(l, |obj|)
    decreases if l.Jump? then |obj| - l.target else 0
  {
    match l
    case Accept => true
    case Reject => false
    case Jump(i) => Follows(obj, choices, if choices[i] then obj[i].success else obj[i].failure)
  }

  /** Prefer the branch that may accept. */
  function BestChoices(obj: seq<Insn>, f: Field, n: u32): (choices: seq<bool>)
    ensures Consistent(obj, f, n, choices)
  {
    seq(|obj|, i requires 0 <= i < |obj| =>
      if Decided(obj[i], f) then Holds(obj[i].test, n, obj[i].arg[0]) else MayLabel(obj, i, obj[i].success, f, n))
  }

  /** The pass is tight: what it does not rule out, some outcome of the undecided tests
      accepts. */
  lemma {:induction false} MayTight(obj: seq<Insn>, i: nat, f: Field, n: u32)
    requires Forward(obj) && i < |obj|
    ensures Follows(obj, BestChoices(obj, f, n), Jump(i)) == May(obj, i, f, n)
    decreases |obj| - i
  {
    if obj[i].success.Jump? {
      MayTight(obj, obj[i].success.target, f, n);
    }
    if obj[i].failure.Jump? {
      MayTight(obj, obj[i].failure.target, f, n);
    }
  }

  /** No choice consistent with `f == n` gets further than the pass says. */
  lemma {:induction false} MayCovers(obj: seq<Insn>, i: nat, f: Field, n: u32, choices: seq<bool>)
    requires Forward(obj) && i < |obj| && Consistent(obj, f, n, choices)
    ensures Follows(obj, choices, Jump(i)) ==> May(obj, i, f, n)
    decreases |obj| - i
  {
    if obj[i].success.Jump? {
      MayCovers(obj, obj[i].success.target, f, n, choices);
    }
    if obj[i].failure.Jump? {
      MayCovers(obj, obj[i].failure.target, f, n, choices);
    }
    var next := if choices[i] then obj[i].success else obj[i].failure;
    assert Follows(obj, choices, next) ==> MayLabel(obj, i, next, f, n);
  }

  /** With `f == n`, some outcome of the tests that this leaves open ends in ACCEPT. */
  ghost predicate Possible(obj: seq<Insn>, f: Field, n: u32)
    requires 0 < |obj| && Forward(obj)
  {
    exists choices :: Consistent(obj, f, n, choices) && Follows(obj, choices, Jump(0))
  }

  lemma PossibleIsMay(obj: seq<Insn>, f: Field, n: u32)
    requires 0 < |obj| && Forward(obj)
    ensures Possible(obj, f, n) <==> May(obj, 0, f, n)
  {
    hide Follows, May;
    if May(obj, 0, f, n) {
      MayTight(obj, 0, f, n);
      assert Consistent(obj, f, n, BestChoices(obj, f, n));
    }
    if choices :| Consistent(obj, f, n, choices) && Follows(obj, choices, Jump(0)) {
      MayCovers(obj, 0, f, n, choices);
    }
  }

  /** The backward pass; it answers FALSE exactly for a definite reject. */
  method CondExecFilter(obj: seq<Insn>, f: Field, n: u32) returns (possible: bool)
    requires |obj| <= MAXLEN
    ensures |obj| == 0 ==> possible
    ensures Forward(obj) && |obj| > 0 ==>
              forall v: View :: Shows(obj, v, f, n) && Accepts(obj, Jump(0), v) ==> possible
    ensures Forward(obj) && |obj| > 0 ==> (possible <==> Possible(obj, f, n))
  {
    hide Shows, Accepts, Follows, Possible;
    if |obj| == 0 {
      return true;
    }
    var result := new bool[MAXLEN];
    var ip := |obj| - 1;
    while ip >= 0
      invariant -1 <= ip < |obj|
      invariant forall k :: ip < k < |obj| ==> result[k] == May(obj, k, f, n)
    {
      var yes := Outcome(obj, result, ip, obj[ip].success, f, n);
      var no := Outcome(obj, result, ip, obj[ip].failure, f, n);
      if yes && no {
        result[ip] := true;
      } else if !yes && !no {
        result[ip] := false;
      } else if obj[ip].field == f {
        if obj[ip].neg || obj[ip].arg[1] != 0 || obj[ip].arg[2] != 0 || obj[ip].arg[3] != 0 {
          result[ip] := true;
        } else {
          result[ip] := if Holds(obj[ip].test, n, obj[ip].arg[0]) then yes else no;
        }
      } else {
        result[ip] := true;
      }
      ip := ip - 1;
    }
    possible := result[0];
    if Forward(obj) {
      forall v: View | Shows(obj, v, f, n) && Accepts(obj, Jump(0), v)
        ensures possible
      {
        MaySound(obj, 0, f, n, v);
      }
      PossibleIsMay(obj, f, n);
    }
  }

  method Outcome(obj: seq<Insn>, result: array<bool>, ip: nat, l: Label, f: Field, n: u32) returns (yes: bool)
    requires ip < |obj| <= MAXLEN == result.Length
    requires forall k :: ip < k < |obj| ==> result[k] == May(obj, k, f, n)
    ensures yes == MayLabel(obj, ip, l, f, n)
  {
    match l
    case Accept => return true;
    case Reject => return false;
    case Jump(t) =>
      if ip < t < |obj| {
        return result[t];
      }
      return true;
  }

  /** What the analysis records about a filter. */
  datatype FilterFlags = FilterFlags(inbound: bool, outbound: bool, ip: bool, ipv6: bool, events: set<nat>)

  predicate IsPacketLayer(layer: Layer) { layer == Network || layer == NetworkForward }

  /** The events of a layer that the analysis asks about. */
  predicate IsLayerEvent(layer: Layer, event: nat) {
    (layer == Flow && event == 2) || (layer == Socket && 3 <= event <= 7)
  }

  lemma PacketShows(obj: seq<Insn>, v: View)
    requires v.PacketView?
    ensures Shows(obj, v, ZERO, 0)
    ensures Shows(obj, v, INBOUND, if v.outbound then 0 else 1)
    ensures Shows(obj, v, OUTBOUND, if v.outbound then 1 else 0)
    ensures Shows(obj, v, IP, if v.ip.V4? then 1 else 0)
    ensures Shows(obj, v, IPV6, if v.ip.V4? then 0 else 1)
  {
  }

  lemma EventShows(obj: seq<Insn>, v: View)
    requires v.EventView?
    ensures Shows(obj, v, ZERO, 0) && Shows(obj, v, EVENT, v.event)
  {
  }

  lemma ForwardShows(obj: seq<Insn>, v: View, f: Field, n: u32)
    requires FieldsValid(obj, NetworkForward) && (f == INBOUND || f == OUTBOUND)
    ensures Shows(obj, v, f, n)
  {
  }

  /** One flag that needs two fields to have the values they have on its inputs. */
  method BothPossible(obj: seq<Insn>, f: Field, n: u32, g: Field, m: u32) returns (possible: bool)
    requires 0 < |obj| <= MAXLEN && Forward(obj)
    ensures forall v: View :: Shows(obj, v, f, n) && Shows(obj, v, g, m) && Accepts(obj, Jump(0), v) ==> possible
    ensures possible <==> Possible(obj, f, n) && Possible(obj, g, m)
  {
    hide Possible;
    possible := CondExecFilter(obj, f, n);
    if possible {
      possible := CondExecFilter(obj, g, m);
    }
  }

  method AddEvent(obj: seq<Insn>, event: u32, events: set<nat>) returns (r: set<nat>)
    requires 0 < |obj| <= MAXLEN && Forward(obj)
    ensures r == if Possible(obj, EVENT, event) then events + {event} else events
    ensures forall v: View :: v.EventView? && v.event == event && Accepts(obj, Jump(0), v) ==> event in r
  {
    hide Shows, Accepts, Possible;
    var possible := CondExecFilter(obj, EVENT, event);
    r := if possible then events + {event} else events;
    forall v: View | v.EventView? && v.event == event && Accepts(obj, Jump(0), v)
      ensures event in r
    {
      EventShows(obj, v);
    }
  }

  method EventsPossible(layer: Layer, obj: seq<Insn>) returns (events: set<nat>)
    requires 0 < |obj| <= MAXLEN && Forward(obj)
    ensures forall v: View :: v.EventView? && IsLayerEvent(layer, v.event) && Accepts(obj, Jump(0), v) ==>
              v.event in events
    ensures forall event :: event in events <==> IsLayerEvent(layer, event) && Possible(obj, EVENT, event)
  {
    hide Accepts, Possible;
    events := {};
    if layer == Flow {
      events := AddEvent(obj, 2, events);
    } else if layer == Socket {
      events := AddEvent(obj, 3, events);
      events := AddEvent(obj, 4, events);
      events := AddEvent(obj, 7, events);
      events := AddEvent(obj, 5, events);
      events := AddEvent(obj, 6, events);
    }
  }

  /** Neither the filter as a whole, nor with one field 1, nor with the other 0, is a definite reject. */
  ghost predicate CanBe(obj: seq<Insn>, one: Field, zero: Field)
    requires 0 < |obj| && Forward(obj)
  {
    Possible(obj, ZERO, 0) && Possible(obj, one, 1) && Possible(obj, zero, 0)
  }

  ghost predicate CanBeEvent(obj: seq<Insn>, event: u32)
    requires 0 < |obj| && Forward(obj)
  {
    Possible(obj, ZERO, 0) && Possible(obj, EVENT, event)
  }

  /** Exactly when each flag is set.  A packet or event the filter accepts has its direction, family and event flagged.
      A forwarded packet has no direction to test, so an accepted one has both. */
  method AnalyzeFilter(layer: Layer, obj: seq<Insn>) returns (flags: FilterFlags)
    requires 0 < |obj| <= MAXLEN && Forward(obj)
    ensures forall v: View :: IsPacketLayer(layer) && v.PacketView? && Accepts(obj, Jump(0), v) ==>
              && (if v.outbound then flags.outbound else flags.inbound)
              && (if v.ip.V4? then flags.ip else flags.ipv6)
    ensures layer == NetworkForward && FieldsValid(obj, layer) ==>
              forall v: View :: v.PacketView? && Accepts(obj, Jump(0), v) ==> flags.inbound && flags.outbound
    ensures forall v: View :: v.EventView? && IsLayerEvent(layer, v.event) && Accepts(obj, Jump(0), v) ==>
              v.event in flags.events
    ensures flags.inbound <==> IsPacketLayer(layer) && CanBe(obj, INBOUND, OUTBOUND)
    ensures flags.outbound <==> IsPacketLayer(layer) && CanBe(obj, OUTBOUND, INBOUND)
    ensures flags.ip <==> layer != Reflect && CanBe(obj, IP, IPV6)
    ensures flags.ipv6 <==> layer != Reflect && CanBe(obj, IPV6, IP)
    ensures forall event ::
              event in flags.events <==> IsLayerEvent(layer, event) && CanBeEvent(obj, event)
  {
    hide Shows, Accepts, Possible;
    forall v: View | v.PacketView? ensures Shows(obj, v, ZERO, 0) { PacketShows(obj, v); }
    forall v: View | v.EventView? ensures Shows(obj, v, ZERO, 0) { EventShows(obj, v); }
    flags := FilterFlags(false, false, false, false, {});
    var possible := CondExecFilter(obj, ZERO, 0);
    if !possible {
      return;
    }
    if IsPacketLayer(layer) {
      var inbound := BothPossible(obj, INBOUND, 1, OUTBOUND, 0);
      var outbound := BothPossible(obj, OUTBOUND, 1, INBOUND, 0);
      flags := flags.(inbound := inbound, outbound := outbound);
    }
    if layer != Reflect {
      var ip := BothPossible(obj, IP, 1, IPV6, 0);
      var ipv6 := BothPossible(obj, IPV6, 1, IP, 0);
      flags := flags.(ip := ip, ipv6 := ipv6);
    }
    var events := EventsPossible(layer, obj);
    flags := flags.(events := events);
    forall v: View | IsPacketLayer(layer) && v.PacketView? && Accepts(obj, Jump(0), v)
      ensures (if v.outbound then flags.outbound else flags.inbound) && (if v.ip.V4? then flags.ip else flags.ipv6)
      ensures layer == NetworkForward && FieldsValid(obj, layer) ==> flags.inbound && flags.outbound
    {
      PacketShows(obj, v);
      if layer == NetworkForward && FieldsValid(obj, layer) {
        ForwardShows(obj, v, INBOUND, 0);
        ForwardShows(obj, v, INBOUND, 1);
        ForwardShows(obj, v, OUTBOUND, 0);
        ForwardShows(obj, v, OUTBOUND, 1);
      }
    }
  }
}
