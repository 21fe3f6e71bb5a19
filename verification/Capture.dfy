/** One packet through the kernel program and the ring callback of one handle. */
module Capture {
  import opened Words
  import opened Fields
  import opened Filter
  import opened Cube
  import opened Rules
  import opened Walk
  import opened Lower

  const DIR_INGRESS := 1
  const DIR_EGRESS := 2
  const DIVERT_MAX_PACKET := 65536

  const LOOP_PREVENTION_MARK := 0x4D49
  const REDIRECT_MARK := 0x4D4A
  const REDIRECT_PRIO_MAGIC := 0x4D4B
  const REDIRECTED_MARK := 0x4D4C

  /** A packet mark or socket priority: a 16-bit tag and a 16-bit payload. */
  datatype Mark = Mark(tag: u16, low: u16)

  /** The per-handle configuration the program reads. */
  datatype Config = Config(priority: u32, snaplen: u32, loIfindex: u32, shutdown: bool, fragments: bool, forward: bool,
                           fwdCheck: bool, noInbound: bool, noOutbound: bool, skipLo: bool,
                           heartbeat: nat, heartbeatTimeout: nat)

  /** A packet at a TC hook.  `parsed` is false for anything but IP; `forwarded` is what the
      routing lookup would say. */
  datatype Skb = Skb(mark: Mark, ifindex: u32, ingressIfindex: u32, len: u32, parsed: bool, fragment: bool,
                     forwarded: bool, attrs: Attrs)

  datatype Verdict = Unspec | Shot | Stolen

  /** What the program copies to the ring. */
  datatype Record = Record(dir: nat, loopback: bool, sniffed: bool, fragment: bool, impostor: bool, forward: bool)

  predicate OwnerGone(cfg: Config, now: nat) {
    cfg.heartbeatTimeout != 0 && now - cfg.heartbeat > cfg.heartbeatTimeout
  }

  /** An injected packet is ignored by its injector and by every earlier handle. */
  predicate Ignores(priority: u32, mark: Mark) {
    || (mark.tag == LOOP_PREVENTION_MARK && priority <= mark.low)
    || mark.tag == REDIRECT_MARK
  }

  predicate SkippedByMark(cfg: Config, mark: Mark) {
    Ignores(cfg.priority, mark)
  }

  predicate OnLoopback(cfg: Config, skb: Skb) { skb.ifindex == cfg.loIfindex }

  /** The hook and layer do not concern this handle. */
  predicate SkippedByPlace(cfg: Config, skb: Skb, dir: nat) {
    || (OnLoopback(cfg, skb) && (dir == DIR_INGRESS || cfg.skipLo))
    || (dir == DIR_INGRESS && cfg.noInbound)
    || (dir == DIR_EGRESS && cfg.noOutbound)
    || (dir == DIR_EGRESS && (!OnLoopback(cfg, skb) && skb.ingressIfindex != 0) != cfg.forward)
    || (dir == DIR_INGRESS && cfg.forward)
  }

  predicate SkippedByKind(cfg: Config, skb: Skb, dir: nat) {
    || !skb.parsed
    || (skb.fragment && dir == DIR_INGRESS && !cfg.fragments)
    || (dir == DIR_INGRESS && cfg.fwdCheck && skb.forwarded)
  }

  /** The packet gets as far as the rules. */
  predicate ReachesRules(cfg: Config, skb: Skb, dir: nat, now: nat) {
    && !cfg.shutdown && !OwnerGone(cfg, now)
    && !SkippedByMark(cfg, skb.mark) && !SkippedByPlace(cfg, skb, dir) && !SkippedByKind(cfg, skb, dir)
  }

  datatype Action = Divert | Sniff | Drop

  function ActionBits(action: Action): set<Match> {
    match action
    case Divert => {}
    case Sniff => {SNIFF}
    case Drop => {DROP}
  }

  function Act4(r: Rule4,
                action: Action): Rule4 { r.(common := r.common.(active := r.common.active + ActionBits(action))) }
  function Act6(r: Rule6,
                action: Action): Rule6 { r.(common := r.common.(active := r.common.active + ActionBits(action))) }

  /** The rule maps of a handle: the tables with the handle's action bits, zeroes after them. */
  datatype Maps = Maps(v4: seq<Rule4>, v6: seq<Rule6>)

  /** The mode of a handle: SNIFF and DROP exclude each other. */
  datatype Mode = Normal | SniffOnly | DropAll

  /** Only exact rules may drop in the kernel. */
  function RuleAction(mode: Mode, exact: bool): Action {
    match mode
    case Normal => Divert
    case SniffOnly => Sniff
    case DropAll => if exact then Drop else Divert
  }

  method LoadRules(mode: Mode, t: Tables) returns (maps: Maps)
    ensures maps == Loaded(mode, t)
  {
    var action := RuleAction(mode, t.exact);
    maps := Maps([], []);
    for i := 0 to |t.v4|
      invariant maps == Maps(seq(i, (k: nat) requires k < |t.v4| => Act4(t.v4[k], action)), [])
    {
      maps := maps.(v4 := maps.v4 + [Act4(t.v4[i], action)]);
    }
    for i := 0 to |t.v6|
      invariant maps == Loaded(mode, t).(v6 := seq(i, (k: nat) requires k < |t.v6| => Act6(t.v6[k], action)))
    {
      maps := maps.(v6 := maps.v6 + [Act6(t.v6[i], action)]);
    }
  }

  function Loaded(mode: Mode, t: Tables): Maps {
    var action := RuleAction(mode, t.exact);
    Maps(seq(|t.v4|, (k: nat) requires k < |t.v4| => Act4(t.v4[k], action)),
         seq(|t.v6|, (k: nat) requires k < |t.v6| => Act6(t.v6[k], action)))
  }

  lemma ActKeepsMatching(action: Action, r4: Rule4, r6: Rule6, a: Attrs)
    ensures Matches4(Act4(r4, action), a) <==> Matches4(r4, a)
    ensures Matches6(Act6(r6, action), a) <==> Matches6(r6, a)
  {
    hide SameUnderMask;
  }

  /** The kernel's loop over one family's map: the first matching rule decides, and an empty
      entry ends the table. */
  method FirstMatch(maps: Maps, a: Attrs, ghost mode: Mode, ghost t: Tables) returns (matched: bool, mask: set<Match>)
    requires maps == Loaded(mode, t) && TablesValid(t)
    ensures matched <==> TableMatches(t, a)
    ensures matched ==> (DROP in mask <==> RuleAction(mode, t.exact) == Drop) && (SNIFF in mask <==>
              RuleAction(mode, t.exact) == Sniff)
  {
    hide Matches4, Matches6;
    ghost var action := RuleAction(mode, t.exact);
    matched, mask := false, {};
    var i := 0;
    while i < MAX_RULES
      invariant 0 <= i <= MAX_RULES
      invariant a.ver == 4 ==> i <= |maps.v4| && forall k :: 0 <= k < i ==> !Matches4(t.v4[k], a)
      invariant a.ver != 4 ==> i <= |maps.v6| && forall k :: 0 <= k < i ==> !Matches6(t.v6[k], a)
    {
      if a.ver == 4 {
        if i >= |maps.v4| || maps.v4[i].common.active == {} {
          return;
        }
        ActKeepsMatching(action, t.v4[i], MatchAll().v6[0], a);
        if Matches4(maps.v4[i], a) {
          return true, maps.v4[i].common.active;
        }
      } else {
        if i >= |maps.v6| || maps.v6[i].common.active == {} {
          return;
        }
        ActKeepsMatching(action, MatchAll().v4[0], t.v6[i], a);
        if Matches6(maps.v6[i], a) {
          return true, maps.v6[i].common.active;
        }
      }
      i := i + 1;
    }
  }

  /** Rules cannot judge fragments: they go to user space if the family has any rule. */
  predicate FamilyEnabled(t: Tables, a: Attrs) {
    if a.ver == 4 then t.v4 != [] else t.v6 != []
  }

  function Snap(cfg: Config): nat {
    if cfg.snaplen == 0 || cfg.snaplen > DIVERT_MAX_PACKET then DIVERT_MAX_PACKET else cfg.snaplen
  }

  /** A packet that is copied whole. */
  predicate FitsRing(cfg: Config, skb: Skb, ringFree: bool) {
    ringFree && skb.len <= Snap(cfg)
  }

  function RecordOf(cfg: Config, skb: Skb, dir: nat, sniffed: bool): Record {
    Record(dir, OnLoopback(cfg, skb), sniffed, skb.fragment,
           skb.mark.tag == LOOP_PREVENTION_MARK, dir == DIR_EGRESS && cfg.forward)
  }

  /** What the program decides on a packet that reached the rules and was selected. */
  predicate Decided(action: Action, cfg: Config, skb: Skb, dir: nat, v: Verdict, rec: Option<Record>) {
    match action
    case Drop => v == Shot && rec == None
    case Sniff => v == Unspec && rec == Some(RecordOf(cfg, skb, dir, true))
    case Divert => v == Stolen && rec == Some(RecordOf(cfg, skb, dir, false))
  }

  /** The TC program of one handle on one packet. */
  method ProcessPacket(cfg: Config, maps: Maps, skb: Skb, dir: nat, now: nat, ringFree: bool, ghost mode: Mode,
                       ghost t: Tables)
    returns (v: Verdict, rec: Option<Record>)
    requires maps == Loaded(mode, t) && TablesValid(t)
    requires dir == DIR_INGRESS || dir == DIR_EGRESS
    ensures !ReachesRules(cfg, skb, dir, now) ==> v == Unspec && rec == None
    ensures ReachesRules(cfg, skb, dir, now) && !skb.fragment && !TableMatches(t, skb.attrs) ==>
              v == Unspec && rec == None
    ensures ReachesRules(cfg, skb, dir, now) && FitsRing(cfg, skb, ringFree) && !skb.fragment ==>
              TableMatches(t, skb.attrs) ==>
              Decided(RuleAction(mode, t.exact), cfg, skb, dir, v, rec)
    ensures ReachesRules(cfg, skb, dir, now) && skb.fragment && !FamilyEnabled(t, skb.attrs) ==>
              v == Unspec && rec == None
    ensures ReachesRules(cfg, skb, dir, now) && FitsRing(cfg, skb, ringFree) && skb.fragment ==>
              FamilyEnabled(t, skb.attrs) ==>
              Decided(if mode == SniffOnly then Sniff else Divert, cfg, skb, dir, v, rec)
    ensures v == Stolen ==> rec.Some?
  {
    hide TableMatches;
    v, rec := Unspec, None;
    if cfg.shutdown || OwnerGone(cfg, now) || SkippedByMark(cfg, skb.mark) {
      return;
    }
    if SkippedByPlace(cfg, skb, dir) || SkippedByKind(cfg, skb, dir) {
      return;
    }
    var matched, mask := false, {};
    if skb.fragment {
      if skb.attrs.ver == 4 {
        mask := if maps.v4 == [] then {} else maps.v4[0].common.active;
      } else {
        mask := if maps.v6 == [] then {} else maps.v6[0].common.active;
      }
      if ENABLED !in mask || NEVER in mask {
        return;
      }
      matched := true;
      mask := mask - {DROP};
    } else {
      matched, mask := FirstMatch(maps, skb.attrs, mode, t);
    }
    if !matched {
      return;
    }
    if DROP in mask {
      return Shot, None;
    }
    var sniff := SNIFF in mask;
    if skb.len > Snap(cfg) && !sniff {
      return;
    }
    if !ringFree {
      return;
    }
    rec := Some(RecordOf(cfg, skb, dir, sniff));
    v := if sniff then Unspec else Stolen;
  }

  /** What becomes of a packet: it may pass the hook, be queued for the application, be
      injected again, or be gone. */
  datatype Fate = Fate(passed: bool, queued: bool, reinjected: bool)

  /** What user space does with a record: packets the kernel could not judge are evaluated,
      and those the filter rejects are put back. */
  method RingCallback(layer: Layer, obj: seq<Insn>, exact: bool, mode: Mode, rec: Record, view: View)
    returns (queued: bool, reinjected: bool)
    requires 1 <= |obj| <= MAXLEN && Forward(obj) && FieldsValid(obj, layer)
    ensures exact && !rec.fragment ==> queued && !reinjected
    ensures !exact || rec.fragment ==>
              && (queued <==> Accepts(obj, Jump(0), view) && mode != DropAll)
              && (reinjected <==> !Accepts(obj, Jump(0), view) && !rec.sniffed)
  {
    if !exact || rec.fragment {
      var verdict := ExecuteFilter(obj, layer, view);
      if verdict <= 0 {
        return false, !rec.sniffed;
      }
      if mode == DropAll {
        return false, false;
      }
    }
    return true, false;
  }

  /** The fate the filter asks for: accepted packets are delivered, observed or discarded;
      rejected ones go on their way, untouched or put back, and are never delivered. */
  predicate Right(mode: Mode, accepted: bool, f: Fate) {
    match mode
    case Normal => if accepted then f == Fate(false, true, false) else !f.queued && f.passed != f.reinjected
    case DropAll => if accepted then f == Fate(false, false, false) else !f.queued && f.passed != f.reinjected
    case SniffOnly => f == Fate(true, accepted, false)
  }

  /** End to end: on a packet that reaches the rules and fits the ring, a handle whose tables
      came from the filter does exactly what the filter says.  Fragments are judged by the
      filter alone once their family has a rule. */
  method Deliver(cfg: Config, layer: Layer, obj: seq<Insn>, t: Tables, mode: Mode, skb: Skb, view: View, dir: nat,
                 now: nat, ringFree: bool)
    returns (f: Fate)
    requires 1 <= |obj| <= MAXLEN && Forward(obj) && FieldsValid(obj, layer)
    requires TablesValid(t)
    requires dir == skb.attrs.dir && (dir == DIR_INGRESS || dir == DIR_EGRESS)
    ensures !ReachesRules(cfg, skb, dir, now) ==> f == Fate(true, false, false)
    ensures ReachesRules(cfg, skb, dir, now) && !skb.fragment && FitsRing(cfg, skb, ringFree) ==>
              Superset(obj, t) && (t.exact ==> Subset(obj, t)) && AgreesWith(false, obj, Subject(view, skb.attrs)) ==>
              Right(mode, Accepts(obj, Jump(0), view), f)
    ensures ReachesRules(cfg, skb, dir, now) && FitsRing(cfg, skb, ringFree) && skb.fragment ==>
              FamilyEnabled(t, skb.attrs) ==>
              Right(mode, Accepts(obj, Jump(0), view), f)
  {
    hide TableMatches, Accepts, AgreesWith;
    var maps := LoadRules(mode, t);
    var v, rec := ProcessPacket(cfg, maps, skb, dir, now, ringFree, mode, t);
    var queued, reinjected := false, false;
    if rec.Some? {
      queued, reinjected := RingCallback(layer, obj, t.exact, mode, rec.value, view);
    }
    f := Fate(v == Unspec, queued, reinjected);
    ghost var s := Subject(view, skb.attrs);
    assert Superset(obj, t) && AgreesWith(false, obj, s) && Accepted(obj, s) ==> TableMatches(t, s.attrs);
    assert Subset(obj, t) && AgreesWith(false, obj, s) && TableMatches(t, s.attrs) ==> Accepted(obj, s);
  }
}
