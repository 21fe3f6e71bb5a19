/** How handles hand one packet down a chain: the marks it carries from divert to divert. */
module Chain {
  import opened Words
  import opened Capture

  datatype Direction = Ingress | Egress

  datatype Hook = Hook(ifindex: u32, dir: Direction)

  /** The interfaces, the TC priority of every handle and whether it is on the forward layer, and
      the programs of every hook in the order they run. */
  datatype Net = Net(lo: u16, ifaces: set<u32>, prio: nat -> u16, forward: nat -> bool, at: Hook -> seq<nat>)

  /** `cameIn` tells a packet received on some interface from one sent locally. */
  datatype Packet = Packet(mark: Mark, priority: Mark, cameIn: bool)

  /** `next` is the program a packet at a hook meets next. */
  datatype Place = OnHook(hook: Hook, next: nat) | Held(owner: nat) | Gone

  /** One packet, with the priorities of the handles it was offered to and diverted by. */
  datatype State = State(place: Place, packet: Packet, offered: seq<u16>, diverted: seq<u16>)

  /** Sent through lo and met by an ingress program: on to the target, carrying the injector's
      priority in the mark. */
  function Redirected(p: Packet): Packet {
    Packet(Mark(REDIRECTED_MARK, if p.priority.tag == REDIRECT_PRIO_MAGIC then p.priority.low else 0), Mark(0, 0), true)
  }

  /** Does the packet concern a handle's layer at this hook?  Loopback packets are seen on their way
      out only, forwarded ones on their way out and by the forward layer only. */
  predicate Sees(net: Net, h: nat, hook: Hook, p: Packet) {
    if hook.dir.Ingress? then hook.ifindex != net.lo && !net.forward(h)
    else (hook.ifindex != net.lo && p.cameIn) == net.forward(h)
  }

  /** The mark an ingress program judges a packet by, and leaves on it. */
  function Arrived(p: Packet): Packet {
    if p.mark.tag == REDIRECTED_MARK then p.(mark := Mark(LOOP_PREVENTION_MARK, p.mark.low)) else p
  }

  /** One program runs: it redirects, or passes the packet over, or offers it to its handle,
      which by its filter lets it pass or takes it. */
  predicate RunProgram(net: Net, s: State, s': State)
    requires s.place.OnHook? && s.place.next < |net.at(s.place.hook)|
  {
    var hook, next := s.place.hook, s.place.next;
    var h := net.at(hook)[next];
    var p := if hook.dir.Ingress? then Arrived(s.packet) else s.packet;
    if hook.dir.Ingress? && s.packet.mark.tag == REDIRECT_MARK then
      var target := s.packet.mark.low;
      s' == s.(place := if target in net.ifaces then OnHook(Hook(target, Ingress), 0) else Gone,
               packet := Redirected(s.packet))
    else if Ignores(net.prio(h), p.mark) || !Sees(net, h, hook, p) then
      s' == s.(place := OnHook(hook, next + 1), packet := p)
    else
      || s' == s.(place := OnHook(hook, next + 1), packet := p, offered := s.offered + [net.prio(h)])
      || s' == State(Held(h), p, s.offered + [net.prio(h)], s.diverted + [net.prio(h)])
  }

  /** Past the last program: lo egress leads to lo ingress, ingress to egress (forwarding, never out
      of lo), other egress possibly to a paired interface; or the packet is delivered, sent or
      dropped. */
  predicate LeaveHook(net: Net, s: State, s': State)
    requires s.place.OnHook?
  {
    var hook := s.place.hook;
    && s'.offered == s.offered && s'.diverted == s.diverted
    && match s'.place
       case Gone => s'.packet == s.packet
       case Held(_) => false
       case OnHook(hook', next') =>
         && next' == 0 && hook'.dir != hook.dir && s'.packet == s.packet.(cameIn := true)
         && (hook == Hook(net.lo, Egress) ==> hook'.ifindex == net.lo)
         && (hook'.dir.Egress? ==> hook'.ifindex != net.lo)
  }

  /** The handle that holds the packet injects it: out of some interface, or into one by way
      of lo; or it keeps it. */
  predicate Inject(net: Net, s: State, s': State)
    requires s.place.Held?
  {
    var prio := net.prio(s.place.owner);
    && s'.offered == s.offered && s'.diverted == s.diverted
    && (|| s'.place.Gone?
        || InjectsOut(prio, s')
        || InjectsIn(net, prio, s'))
  }

  predicate InjectsOut(prio: u16, s: State) {
    && s.place.OnHook? && s.place.hook.dir.Egress? && s.place.next == 0
    && s.packet.mark == Mark(LOOP_PREVENTION_MARK, prio) && !s.packet.cameIn
  }

  predicate InjectsIn(net: Net, prio: u16, s: State) {
    && s.place == OnHook(Hook(net.lo, Egress), 0)
    && s.packet.mark.tag == REDIRECT_MARK && s.packet.priority == Mark(REDIRECT_PRIO_MAGIC, prio) && !s.packet.cameIn
  }

  predicate Step(net: Net, s: State, s': State) {
    match s.place
    case Gone => false
    case Held(_) => Inject(net, s, s')
    case OnHook(hook, next) =>
      if next < |net.at(hook)| then RunProgram(net, s, s') else LeaveHook(net, s, s')
  }

  predicate Initial(s: State) {
    s.place.OnHook? && s.place.next == 0 && s.offered == [] && s.diverted == []
  }

  ghost predicate IsRun(net: Net, run: seq<State>) {
    && 0 < |run| && Initial(run[0])
    && forall i :: 0 <= i < |run| - 1 ==> Step(net, run[i], run[i + 1])
  }

  predicate Increasing(prios: seq<u16>) {
    forall i, j :: 0 <= i < j < |prios| ==> prios[i] < prios[j]
  }

  /** An inbound injection aims at an interface where some handle's program is. */
  predicate Aimed(net: Net, s: State) {
    s.place.OnHook? && s.packet.mark.tag == REDIRECT_MARK ==>
      s.packet.mark.low in net.ifaces ==> net.at(Hook(s.packet.mark.low, Ingress)) != []
  }

  ghost predicate AllAimed(net: Net, run: seq<State>) {
    forall i :: 0 <= i < |run| - 1 && run[i].place.Held? ==> Aimed(net, run[i + 1])
  }

  /** After a divert the packet carries the diverting handle's priority, wherever it is. */
  predicate Carries(net: Net, s: State, prio: u16) {
    match s.place
    case Gone => true
    case Held(h) => net.prio(h) == prio
    case OnHook(hook, next) =>
      var mark := s.packet.mark;
      || mark == Mark(LOOP_PREVENTION_MARK, prio)
      || (mark.tag == REDIRECT_MARK && s.packet.priority == Mark(REDIRECT_PRIO_MAGIC, prio) && Aimed(net, s))
      || (mark == Mark(REDIRECTED_MARK, prio) && hook.dir.Ingress? && next == 0 && net.at(hook) != [])
  }

  predicate ChainInv(net: Net, s: State) {
    && Increasing(s.diverted)
    && (s.diverted != [] ==> Carries(net, s, s.diverted[|s.diverted| - 1]))
  }

  lemma StepKeepsChain(net: Net, s: State, s': State)
    requires ChainInv(net, s) && Step(net, s, s') && (s.place.Held? ==> Aimed(net, s'))
    ensures ChainInv(net, s')
  {
  }

  /** In every run the priorities of the handles that divert a packet strictly increase, lo
      redirects included; so none of them diverts it twice. */
  lemma {:induction false} DivertsIncrease(net: Net, run: seq<State>)
    requires IsRun(net, run) && AllAimed(net, run)
    ensures ChainInv(net, run[|run| - 1])
  {
    if |run| > 1 {
      var before := run[..|run| - 1];
      assert forall i :: 0 <= i < |before| ==> before[i] == run[i];
      DivertsIncrease(net, before);
      StepKeepsChain(net, run[|run| - 2], run[|run| - 1]);
    }
  }

  /** Handles attach to both hooks of their interfaces, and always to lo. */
  ghost predicate WellAttached(net: Net) {
    && (forall i: u32 :: net.at(Hook(i, Ingress)) == net.at(Hook(i, Egress)))
    && (forall i: u32 :: net.at(Hook(i, Egress)) != [] ==> net.at(Hook(net.lo, Egress)) != [])
  }

  /** A forward-layer handle at the way out of some interface other than lo. */
  predicate ForwardsAt(net: Net, i: u32, k: nat) {
    i != net.lo && k < |net.at(Hook(i, Egress))| && net.forward(net.at(Hook(i, Egress))[k])
  }

  /** There is a forward-layer handle, and an interface without programs that a redirect can name. */
  ghost predicate Exposed(net: Net) {
    && (exists i: u32, k: nat :: ForwardsAt(net, i, k))
    && exists i: u16 :: i in net.ifaces && net.at(Hook(i, Ingress)) == []
  }

  /** Without forward-layer handles: after a divert the packet carries the diverting handle's
      priority, or a mark that is not understood where no handle looks. */
  predicate CarriesLocally(net: Net, s: State, prio: u16) {
    match s.place
    case Gone => true
    case Held(h) => net.prio(h) == prio
    case OnHook(hook, next) =>
      var mark := s.packet.mark;
      || mark == Mark(LOOP_PREVENTION_MARK, prio)
      || (mark.tag == REDIRECT_MARK && s.packet.priority == Mark(REDIRECT_PRIO_MAGIC, prio))
      || (mark == Mark(REDIRECTED_MARK, prio) &&
          if hook.dir.Ingress? then next == 0 else s.packet.cameIn && hook.ifindex != net.lo)
  }

  predicate LocalInv(net: Net, s: State) {
    && Increasing(s.diverted)
    && (s.diverted != [] ==> CarriesLocally(net, s, s.diverted[|s.diverted| - 1]))
  }

  lemma StepKeepsLocal(net: Net, s: State, s': State)
    requires LocalInv(net, s) && Step(net, s, s')
    requires forall i: u32, k: nat :: !ForwardsAt(net, i, k)
    ensures LocalInv(net, s')
  {
    if s.place.OnHook? && s.place.hook.dir.Egress? {
      assert !ForwardsAt(net, s.place.hook.ifindex, s.place.next);
    }
  }

  lemma {:induction false} LocalDivertsIncrease(net: Net, run: seq<State>)
    requires IsRun(net, run) && forall i: u32, k: nat :: !ForwardsAt(net, i, k)
    ensures LocalInv(net, run[|run| - 1])
  {
    if |run| > 1 {
      var before := run[..|run| - 1];
      assert forall i :: 0 <= i < |before| ==> before[i] == run[i];
      LocalDivertsIncrease(net, before);
      StepKeepsLocal(net, run[|run| - 2], run[|run| - 1]);
    }
  }

  lemma Extend(net: Net, run: seq<State>, s: State)
    requires IsRun(net, run) && Step(net, run[|run| - 1], s)
    ensures IsRun(net, run + [s])
  {
    var more := run + [s];
    forall i | 0 <= i < |more| - 1
      ensures Step(net, more[i], more[i + 1])
    {
      assert more[i] == run[i];
    }
  }

  /** Programs at lo egress let a packet on its way to a redirect pass. */
  lemma {:induction false} PassRedirect(net: Net, run: seq<State>) returns (longer: seq<State>)
    requires IsRun(net, run)
    requires var s := run[|run| - 1];
             && s.place.OnHook? && s.place.hook == Hook(net.lo, Egress) && s.place.next <= |net.at(s.place.hook)|
             && s.packet.mark.tag == REDIRECT_MARK
    ensures IsRun(net, longer)
    ensures var s := run[|run| - 1];
            longer[|longer| - 1] == s.(place := OnHook(s.place.hook, |net.at(s.place.hook)|))
    decreases var s := run[|run| - 1]; |net.at(s.place.hook)| - s.place.next
  {
    var s := run[|run| - 1];
    if s.place.next == |net.at(s.place.hook)| {
      return run;
    }
    var s' := s.(place := OnHook(s.place.hook, s.place.next + 1));
    Extend(net, run, s');
    longer := PassRedirect(net, run + [s']);
  }

  /** Inbound injection delivers the packet to the target's ingress hook, marked. */
  lemma RedirectRun(net: Net, run: seq<State>, target: u16) returns (longer: seq<State>)
    requires IsRun(net, run) && run[|run| - 1].place.Held?
    requires net.at(Hook(net.lo, Ingress)) != [] && target in net.ifaces
    ensures IsRun(net, longer)
    ensures var s := run[|run| - 1];
            var marked := Packet(Mark(REDIRECTED_MARK, net.prio(s.place.owner)), Mark(0, 0), true);
            longer[|longer| - 1] == s.(place := OnHook(Hook(target, Ingress), 0), packet := marked)
  {
    var s := run[|run| - 1];
    var marked := Packet(Mark(REDIRECT_MARK, target), Mark(REDIRECT_PRIO_MAGIC, net.prio(s.place.owner)), false);
    var sent := s.(place := OnHook(Hook(net.lo, Egress), 0), packet := marked);
    Extend(net, run, sent);
    longer := PassRedirect(net, run + [sent]);
    var onLo := sent.(place := OnHook(Hook(net.lo, Ingress), 0), packet := sent.packet.(cameIn := true));
    Extend(net, longer, onLo);
    longer := longer + [onLo];
    var there := onLo.(place := OnHook(Hook(target, Ingress), 0), packet := Redirected(onLo.packet));
    Extend(net, longer, there);
    longer := longer + [there];
  }

  /** A mark no handle judges a packet by. */
  predicate Foreign(mark: Mark) {
    mark.tag != LOOP_PREVENTION_MARK && mark.tag != REDIRECT_MARK
  }

  /** The programs before position `k` of a way out let a packet pass. */
  lemma {:induction false} PassTo(net: Net, run: seq<State>, k: nat) returns (longer: seq<State>)
    requires IsRun(net, run)
    requires var s := run[|run| - 1];
             && s.place.OnHook? && s.place.hook.dir.Egress? && s.place.next <= k < |net.at(s.place.hook)|
             && Foreign(s.packet.mark)
    ensures IsRun(net, longer)
    ensures var s, s' := run[|run| - 1], longer[|longer| - 1];
            s'.place == OnHook(s.place.hook, k) && s'.packet == s.packet && s'.diverted == s.diverted
    decreases var s := run[|run| - 1]; k - s.place.next
  {
    var s := run[|run| - 1];
    var hook, next := s.place.hook, s.place.next;
    if next == k {
      return run;
    }
    var h := net.at(hook)[next];
    var s' := s.(place := OnHook(hook, next + 1),
                 offered := if Sees(net, h, hook, s.packet) then s.offered + [net.prio(h)] else s.offered);
    Extend(net, run, s');
    longer := PassTo(net, run + [s'], k);
  }

  /** The handle at position `k` takes a packet it sees. */
  lemma Take(net: Net, run: seq<State>, k: nat) returns (longer: seq<State>)
    requires IsRun(net, run)
    requires var s := run[|run| - 1];
             && s.place.OnHook? && s.place.hook.dir.Egress? && s.place.next <= k < |net.at(s.place.hook)|
             && Foreign(s.packet.mark) && Sees(net, net.at(s.place.hook)[k], s.place.hook, s.packet)
    ensures IsRun(net, longer)
    ensures var s, s' := run[|run| - 1], longer[|longer| - 1];
            var h := net.at(s.place.hook)[k];
            s'.place == Held(h) && s'.diverted == s.diverted + [net.prio(h)]
  {
    longer := PassTo(net, run, k);
    var s := longer[|longer| - 1];
    var h := net.at(s.place.hook)[k];
    var s' := State(Held(h), s.packet, s.offered + [net.prio(h)], s.diverted + [net.prio(h)]);
    Extend(net, longer, s');
    longer := longer + [s'];
  }

  /** A forwarded packet that its forward-layer handle puts back inbound, on an interface without
      programs, keeps the redirect's mark, which programs on the way out do not understand: the
      handle diverts it again. */
  lemma DivertedTwice(net: Net, i: u32, k: nat, target: u16) returns (run: seq<State>)
    requires WellAttached(net) && ForwardsAt(net, i, k)
    requires target in net.ifaces && net.at(Hook(target, Ingress)) == []
    ensures IsRun(net, run) && !Increasing(run[|run| - 1].diverted)
  {
    var out := Hook(i, Egress);
    assert net.at(Hook(net.lo, Ingress)) == net.at(Hook(net.lo, Egress)) != [];
    var p := net.prio(net.at(out)[k]);
    run := [State(OnHook(out, 0), Packet(Mark(0, 0), Mark(0, 0), true), [], [])];
    run := Take(net, run, k);
    run := RedirectRun(net, run, target);
    var back := run[|run| - 1].(place := OnHook(out, 0));
    Extend(net, run, back);
    run := run + [back];
    run := Take(net, run, k);
    assert run[|run| - 1].diverted == [p, p];
    assert run[|run| - 1].diverted[0] == run[|run| - 1].diverted[1];
  }

  /** Every run keeps the order of diverts exactly when the net is not exposed. */
  lemma IncreaseIff(net: Net)
    requires WellAttached(net)
    ensures (forall run: seq<State> :: IsRun(net, run) ==> Increasing(run[|run| - 1].diverted)) <==> !Exposed(net)
  {
    if Exposed(net) {
      var i: u32, k: nat :| ForwardsAt(net, i, k);
      var target: u16 :| target in net.ifaces && net.at(Hook(target, Ingress)) == [];
      var run := DivertedTwice(net, i, k, target);
      assert IsRun(net, run) && !Increasing(run[|run| - 1].diverted);
    } else {
      forall run: seq<State> | IsRun(net, run)
        ensures Increasing(run[|run| - 1].diverted)
      {
        if exists i: u32, k: nat :: ForwardsAt(net, i, k) {
          AimedAnyway(net, run);
          DivertsIncrease(net, run);
        } else {
          LocalDivertsIncrease(net, run);
        }
      }
    }
  }

  lemma AimedAnyway(net: Net, run: seq<State>)
    requires forall i: u16 :: i in net.ifaces ==> net.at(Hook(i, Ingress)) != []
    ensures AllAimed(net, run)
  {
  }

  /** Those of some programs that belong to network-layer handles, in order. */
  function Local(net: Net, programs: seq<nat>): seq<nat> {
    if programs == [] then []
    else
      var h := programs[|programs| - 1];
      Local(net, programs[..|programs| - 1]) + (if net.forward(h) then [] else [h])
  }

  /** The priorities of the network-layer handles at a hook, in program order. */
  function Prios(net: Net, hook: Hook): seq<u16> {
    var local := Local(net, net.at(hook));
    seq(|local|, k requires 0 <= k < |local| => net.prio(local[k]))
  }

  /** How many of them come before position `next`. */
  function Before(net: Net, hook: Hook, next: nat): nat
    requires next <= |net.at(hook)|
  {
    |Local(net, net.at(hook)[..next])|
  }

  lemma {:induction false} LocalPrefix(net: Net, programs: seq<nat>, n: nat)
    requires n <= |programs|
    ensures Local(net, programs[..n]) <= Local(net, programs)
  {
    if n == |programs| {
      assert programs[..n] == programs;
    } else {
      var init := programs[..|programs| - 1];
      LocalPrefix(net, init, n);
      assert init[..n] == programs[..n];
    }
  }

  lemma BeforeNext(net: Net, hook: Hook, next: nat)
    requires next < |net.at(hook)|
    ensures var h, n := net.at(hook)[next], Before(net, hook, next);
            && n <= Before(net, hook, next + 1) <= |Prios(net, hook)|
            && (net.forward(h) ==> Before(net, hook, next + 1) == n)
            && (!net.forward(h) ==> Before(net, hook, next + 1) == n + 1 && Prios(net, hook)[n] == net.prio(h))
  {
    var programs := net.at(hook);
    var more := programs[..next + 1];
    LocalPrefix(net, programs, next + 1);
    assert more[..next] == programs[..next];
    assert Local(net, more)[..] == Local(net, more);
    if !net.forward(programs[next]) {
      assert Local(net, more)[|Local(net, programs[..next])|] == programs[next];
    }
  }

  lemma BeforeEnds(net: Net, hook: Hook)
    ensures Before(net, hook, 0) == 0 && Before(net, hook, |net.at(hook)|) == |Prios(net, hook)|
  {
    var programs := net.at(hook);
    assert programs[..0] == [] && programs[..|programs|] == programs;
  }

  predicate Unmarked(p: Packet) {
    p.mark.tag != LOOP_PREVENTION_MARK && p.mark.tag != REDIRECT_MARK && p.mark.tag != REDIRECTED_MARK
  }

  /** TC runs the programs of a hook by priority, here all distinct.  An ingress hook is reached
      by redirect, so its interface must be one a mark can name, and lo must have a program. */
  predicate Home(net: Net, hook: Hook) {
    && Increasing(Prios(net, hook))
    && (hook.dir.Ingress? ==>
          && hook.ifindex < 0x1_0000 && hook.ifindex in net.ifaces && hook.ifindex != net.lo
          && net.at(Hook(net.lo, Ingress)) != [])
  }

  /** Whoever takes the packet injects it back to the same hook, and lo does not lose it. */
  predicate Returns(net: Net, hook: Hook, s: State, s': State) {
    match s.place
    case Gone => false
    case Held(h) =>
      if hook.dir.Egress? then InjectsOut(net.prio(h), s') && s'.place.hook == hook
      else InjectsIn(net, net.prio(h), s') && s'.packet.mark.low == hook.ifindex
    case OnHook(at, next) =>
      next >= |net.at(at)| ==> at == Hook(net.lo, Egress) && at != hook && s'.place == OnHook(Hook(net.lo, Ingress), 0)
  }

  ghost predicate IsHomeRun(net: Net, hook: Hook, run: seq<State>) {
    && 0 < |run| && Initial(run[0]) && run[0].place.hook == hook && Unmarked(run[0].packet)
    && (hook.dir.Egress? ==> !run[0].packet.cameIn)
    && forall i :: 0 <= i < |run| - 1 ==> Step(net, run[i], run[i + 1]) && Returns(net, hook, run[i], run[i + 1])
  }

  /** The handles offered the packet so far are the first `|s.offered|` that see it; a packet that
      was diverted has been offered up to its diverter, and skips them all on its way back. */
  ghost predicate HomeInv(net: Net, hook: Hook, s: State) {
    var prios, k, mark := Prios(net, hook), |s.offered|, s.packet.mark;
    && k <= |prios| && s.offered == prios[..k]
    && match s.place
       case Gone => false
       case Held(h) => 0 < k && net.prio(h) == prios[k - 1]
       case OnHook(at, next) =>
         if mark.tag != REDIRECT_MARK then
           && at == hook && next <= |net.at(hook)| && (hook.dir.Egress? ==> !s.packet.cameIn)
           && (|| (Unmarked(s.packet) && k == Before(net, hook, next))
               || (mark.tag == LOOP_PREVENTION_MARK && SkipsTo(prios, mark.low, Before(net, hook, next), k))
               || (mark.tag == REDIRECTED_MARK && hook.dir.Ingress? && next == 0 && 0 < k && mark.low == prios[k - 1]))
         else
           && hook.dir.Ingress? && mark.low == hook.ifindex
           && 0 < k && s.packet.priority == Mark(REDIRECT_PRIO_MAGIC, prios[k - 1])
           && (|| (at == Hook(net.lo, Egress) && next <= |net.at(at)|)
               || (at == Hook(net.lo, Ingress) && next == 0))
  }

  /** Injected by the handle before position `j + 1`, the packet has been offered `k`. */
  ghost predicate SkipsTo(prios: seq<u16>, low: u16, next: nat, k: nat) {
    exists j :: 0 <= j < |prios| && prios[j] == low && k == if next <= j then j + 1 else next
  }

  lemma StepKeepsHome(net: Net, hook: Hook, s: State, s': State)
    requires Home(net, hook) && HomeInv(net, hook, s) && Step(net, s, s') && Returns(net, hook, s, s')
    ensures HomeInv(net, hook, s')
  {
    hide Prios, Before;
    var prios, k := Prios(net, hook), |s.offered|;
    match s.place
    case Held(h) =>
      BeforeEnds(net, hook);
      assert prios[k - 1] == net.prio(h);
      assert SkipsTo(prios, prios[k - 1], 0, k);
    case OnHook(at, next) =>
      if s.packet.mark.tag != REDIRECT_MARK {
        assert next < |net.at(at)|;
        StepAtHome(net, hook, s, s');
      }
  }

  lemma StepAtHome(net: Net, hook: Hook, s: State, s': State)
    requires Home(net, hook) && HomeInv(net, hook, s)
    requires s.place.OnHook? && s.packet.mark.tag != REDIRECT_MARK && s.place.next < |net.at(hook)|
    requires RunProgram(net, s, s')
    ensures HomeInv(net, hook, s')
  {
    hide Prios, Before;
    var prios, k, next := Prios(net, hook), |s.offered|, s.place.next;
    var n := Before(net, hook, next);
    BeforeNext(net, hook, next);
    BeforeEnds(net, hook);
    if Unmarked(s.packet) {
      assert n < |prios| ==> prios[..n] + [prios[n]] == prios[..n + 1];
    } else {
      MarkedAtHome(net, hook, s, s');
    }
  }

  /** A packet on its way back skips the handles up to its injector. */
  lemma MarkedAtHome(net: Net, hook: Hook, s: State, s': State)
    requires Home(net, hook) && HomeInv(net, hook, s) && !Unmarked(s.packet)
    requires s.place.OnHook? && s.packet.mark.tag != REDIRECT_MARK && s.place.next < |net.at(hook)|
    requires RunProgram(net, s, s')
    ensures HomeInv(net, hook, s')
  {
    hide Prios, Before;
    var prios, k, next, low := Prios(net, hook), |s.offered|, s.place.next, s.packet.mark.low;
    var n := Before(net, hook, next);
    BeforeNext(net, hook, next);
    BeforeEnds(net, hook);
    if s.packet.mark.tag == REDIRECTED_MARK {
      assert prios[k - 1] == low && SkipsTo(prios, low, n, k);
    }
    var j :| 0 <= j < |prios| && prios[j] == low && k == if n <= j then j + 1 else n;
    var h := net.at(hook)[next];
    if net.forward(h) {
      assert SkipsTo(prios, low, Before(net, hook, next + 1), k);
    } else if n <= j {
      assert prios[n] <= prios[j];
      assert SkipsTo(prios, low, n + 1, k);
    } else {
      assert prios[j] < prios[n];
      assert SkipsTo(prios, low, n + 1, k + 1);
      assert prios[..k] + [prios[k]] == prios[..k + 1];
    }
  }

  /** However the network-layer handles of a hook decide, a packet they keep putting back is offered to
      them in priority order, to none twice, and by the time it gets past the hook to each once. */
  lemma {:induction false} OfferedOnceInOrder(net: Net, hook: Hook, run: seq<State>)
    requires Home(net, hook) && IsHomeRun(net, hook, run)
    ensures HomeInv(net, hook, run[|run| - 1])
    ensures run[|run| - 1].offered <= Prios(net, hook)
    ensures run[|run| - 1].place == OnHook(hook, |net.at(hook)|) ==>
              run[|run| - 1].offered == Prios(net, hook)
  {
    if |run| > 1 {
      var before := run[..|run| - 1];
      assert forall i :: 0 <= i < |before| ==> before[i] == run[i];
      OfferedOnceInOrder(net, hook, before);
      StepKeepsHome(net, hook, run[|run| - 2], run[|run| - 1]);
    }
    BeforeEnds(net, hook);
  }

  const AUTO_PRIORITY_BASE := 30001
  const PRIORITY_HIGHEST := 30000

  /** The TC priorities in use, as new handles see them: the shared registry of live handles, and
      the highest automatic priority this process has given out. */
  class Priorities {
    var registry: seq<u16>
    var localMax: u16

    constructor (registry: seq<u16>)
      ensures this.registry == registry && localMax == 0
    {
      this.registry := registry;
      localMax := 0;
    }

    predicate Highest(max: u16)
      reads this
    {
      && (max == 0 || max == localMax || max in registry) && localMax <= max
      && forall p :: p in registry ==> p <= max
    }

    method MaxInUse() returns (max: u16)
      ensures Highest(max)
    {
      max := 0;
      for i := 0 to |registry|
        invariant max == 0 || max in registry
        invariant forall k :: 0 <= k < i ==> registry[k] <= max
      {
        if registry[i] > max {
          max := registry[i];
        }
      }
      if localMax > max {
        max := localMax;
      }
    }

    /** A number for an automatic priority that lies above every number in use. */
    predicate Free(prio: u16)
      reads this
    {
      AUTO_PRIORITY_BASE <= prio && localMax < prio && forall p :: p in registry ==> p < prio
    }

    /** Gives a new handle its TC priority.  Explicit priorities map to it in reverse order; an
        automatic one is the least free number, or the last one when none is free. */
    method Choose(priority: int) returns (prio: u16)
      requires -PRIORITY_HIGHEST <= priority <= PRIORITY_HIGHEST
      modifies this`localMax
      ensures 1 <= prio
      ensures priority != 0 ==> prio == AUTO_PRIORITY_BASE - priority && localMax == old(localMax)
      ensures priority == 0 ==> localMax == if prio > old(localMax) then prio else old(localMax)
      ensures priority == 0 && old(Free(0xFFFF)) ==>
                old(Free(prio)) && forall p: u16 :: old(Free(p)) ==> prio <= p
      ensures priority == 0 && !old(Free(0xFFFF)) ==> prio == 0xFFFF
      ensures priority == 0 ==> forall max: u16 :: old(Highest(max)) ==> prio == Automatic(max)
    {
      if priority != 0 {
        prio := AUTO_PRIORITY_BASE - priority;
        return;
      }
      var max := MaxInUse();
      var wanted := if max >= AUTO_PRIORITY_BASE then max + 1 else AUTO_PRIORITY_BASE;
      prio := if wanted > 0xFFFF then 0xFFFF else wanted;
      if prio > localMax {
        localMax := prio;
      }
    }

    /** Opens a handle: its number joins the registry. */
    method Open(priority: int) returns (prio: u16)
      requires -PRIORITY_HIGHEST <= priority <= PRIORITY_HIGHEST
      modifies this
      ensures registry == old(registry) + [prio]
      ensures priority == 0 ==> localMax == if prio > old(localMax) then prio else old(localMax)
      ensures priority == 0 ==> forall max: u16 :: old(Highest(max)) ==> prio == Automatic(max)
    {
      prio := Choose(priority);
      registry := registry + [prio];
    }

    /** Opens `n` handles with automatic priorities: each gets the number after the one before, from
        the first number above all in use on. */
    method OpenMany(n: nat, ghost max: u16) returns (prios: seq<u16>)
      requires Highest(max)
      modifies this
      ensures registry == old(registry) + prios && prios == AutomaticRun(max, n)
    {
      hide AutomaticRun;
      prios := [];
      ghost var top := max;
      AutomaticMore(max, 0);
      for i := 0 to n
        invariant registry == old(registry) + prios && prios == AutomaticRun(max, i)
        invariant Highest(top) && top == if i == 0 then max else prios[i - 1]
      {
        var prio := Open(0);
        AutomaticMore(max, i);
        prios := prios + [prio];
        top := prio;
      }
    }
  }

  /** The number for an automatic priority when `max` is the highest in use. */
  function Automatic(max: u16): u16 {
    if max == 0xFFFF then 0xFFFF else if max < AUTO_PRIORITY_BASE then AUTO_PRIORITY_BASE else max + 1
  }

  function AutomaticRun(max: u16, n: nat): (prios: seq<u16>)
    ensures |prios| == n
  {
    seq(n, i requires 0 <= i < n =>
      var wanted := (if max < AUTO_PRIORITY_BASE then AUTO_PRIORITY_BASE - 1 else max) + 1 + i;
      if wanted > 0xFFFF then 0xFFFF else wanted)
  }

  lemma AutomaticMore(max: u16, n: nat)
    ensures AutomaticRun(max, 0) == []
    ensures AutomaticRun(max, n + 1) ==
            AutomaticRun(max, n) + [Automatic(if n == 0 then max else AutomaticRun(max, n)[n - 1])]
  {
  }

  /** Handles opened one after the other get distinct numbers iff the last one is not past the end. */
  lemma DistinctIff(max: u16, n: nat)
    ensures Increasing(AutomaticRun(max, n)) <==>
            n <= 1 || (if max < AUTO_PRIORITY_BASE then AUTO_PRIORITY_BASE - 1 else max) + n <= 0xFFFF
  {
    var prios := AutomaticRun(max, n);
    if n >= 2 && prios[n - 1] == 0xFFFF {
      assert prios[n - 2] < prios[n - 1] || prios[n - 2] == prios[n - 1];
    }
  }

  /** The handles of a hook, listed as TC runs them, each by the number it was opened with. */
  ghost predicate OpenedAs(net: Net, hook: Hook, prios: seq<u16>) {
    var programs := net.at(hook);
    && (forall h :: h in programs ==> h < |prios| && net.prio(h) == prios[h])
    && (forall j, k :: 0 <= j < k < |programs| ==>
          programs[j] != programs[k] && net.prio(programs[j]) <= net.prio(programs[k]))
  }

  /** So every hook of handles opened this way has the distinct priorities `Home` asks for. */
  lemma OpenedAreDistinct(net: Net, hook: Hook, prios: seq<u16>)
    requires Increasing(prios) && OpenedAs(net, hook, prios)
    ensures Increasing(Prios(net, hook))
  {
    var programs := net.at(hook);
    forall j, k | 0 <= j < k < |programs|
      ensures net.prio(programs[j]) < net.prio(programs[k])
    {
      var a, b := programs[j], programs[k];
      assert a in programs && b in programs;
      IncreasingDistinct(prios, a, b);
    }
    LocalIncreases(net, programs);
    var local := Local(net, programs);
    forall j, k | 0 <= j < k < |local| ensures Prios(net, hook)[j] < Prios(net, hook)[k] {
      assert net.prio(local[j]) < net.prio(local[k]);
    }
  }

  lemma IncreasingDistinct(prios: seq<u16>, a: nat, b: nat)
    requires Increasing(prios) && a < |prios| && b < |prios| && a != b
    ensures prios[a] != prios[b]
  {
  }

  predicate Ascending(net: Net, programs: seq<nat>) {
    forall j, k :: 0 <= j < k < |programs| ==> net.prio(programs[j]) < net.prio(programs[k])
  }

  lemma {:induction false} LocalIncreases(net: Net, programs: seq<nat>)
    requires Ascending(net, programs)
    ensures forall x :: x in Local(net, programs) ==> x in programs
    ensures Ascending(net, Local(net, programs))
  {
    if programs != [] {
      var init, h := programs[..|programs| - 1], programs[|programs| - 1];
      LocalIncreases(net, init);
      var local := Local(net, init);
      forall j | 0 <= j < |local| ensures net.prio(local[j]) < net.prio(h) {
        assert local[j] in init;
      }
    }
  }
}
