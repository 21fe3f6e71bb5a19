/** Closing a handle while calls are in progress and the heartbeat thread is at work. */
module Close {

  /** Where a thread is: outside, inside an admitted call, or at some stage of closing. */
  datatype Stage = Outside | InCall | Closing | Woken | Unlisted | Drained | Closed

  /** The heartbeat thread holds its lock while it visits the handles left on its round. */
  datatype Heart = Resting | Beating(left: seq<nat>)

  /** One handle `h` and the threads that use it; `list` is the heartbeat list and `admitted` counts
      the calls let in so far.  Every step is one critical section of the code. */
  datatype State = State(closing: bool, inflight: nat, freed: bool, list: seq<nat>, heart: Heart,
                         stages: map<nat, Stage>, admitted: nat)

  predicate Initial(h: nat, s: State) {
    && !s.closing && s.inflight == 0 && !s.freed && s.admitted == 0 && s.heart == Resting
    && Distinct(s.list) && (forall t :: t in s.stages ==> s.stages[t] == Outside)
  }

  predicate Distinct(list: seq<nat>) {
    forall i, j :: 0 <= i < j < |list| ==> list[i] != list[j]
  }

  /** The list without `h`. */
  function Unlinked(list: seq<nat>, h: nat): seq<nat> {
    if list == [] then [] else if list[0] == h then list[1..] else [list[0]] + Unlinked(list[1..], h)
  }

  lemma {:induction false} UnlinkedGone(list: seq<nat>, h: nat)
    requires Distinct(list)
    ensures h !in Unlinked(list, h) && Distinct(Unlinked(list, h))
    ensures forall x :: x in Unlinked(list, h) <==> x in list && x != h
  {
    if list != [] {
      assert list == [list[0]] + list[1..];
      assert forall x :: x in list[1..] ==> x != list[0];
      if list[0] != h {
        UnlinkedGone(list[1..], h);
        DistinctCons(list[0], Unlinked(list[1..], h));
      }
    }
  }

  lemma DistinctCons(x: nat, list: seq<nat>)
    requires x !in list && Distinct(list)
    ensures Distinct([x] + list)
  {
  }

  /** Walks the list to the entry for `h` and bridges it. */
  method HeartbeatRemove(list: seq<nat>, h: nat) returns (r: seq<nat>)
    ensures r == Unlinked(list, h)
  {
    hide Unlinked;
    var i := 0;
    UnlinkedAt(list, 0, h);
    while i < |list|
      invariant 0 <= i <= |list| && Unlinked(list, h) == list[..i] + Unlinked(list[i..], h)
    {
      UnlinkedAt(list, i, h);
      if list[i] == h {
        return list[..i] + list[i + 1..];
      }
      i := i + 1;
    }
    UnlinkedAt(list, i, h);
    r := list;
  }

  /** One step of the walk: `h` is found at `i`, or looked for behind it. */
  lemma UnlinkedAt(list: seq<nat>, i: nat, h: nat)
    requires i <= |list|
    ensures i == 0 ==> list[..i] + Unlinked(list[i..], h) == Unlinked(list, h)
    ensures i == |list| ==> list[..i] + Unlinked(list[i..], h) == list
    ensures i < |list| && list[i] == h ==> Unlinked(list[i..], h) == list[i + 1..]
    ensures i < |list| && list[i] != h ==>
              list[..i] + Unlinked(list[i..], h) == list[..i + 1] + Unlinked(list[i + 1..], h)
  {
    if i == 0 {
      assert list[0..] == list && list[..0] == [];
    }
    if i < |list| {
      assert list[i..][1..] == list[i + 1..];
      assert list[..i + 1] == list[..i] + [list[i]];
    }
  }

  predicate Enter(s: State, t: nat, s': State)
    requires t in s.stages
  {
    && s.stages[t] == Outside && !s.freed
    && if s.closing then s' == s
       else s' == s.(inflight := s.inflight + 1, admitted := s.admitted + 1, stages := s.stages[t := InCall])
  }

  predicate Leave(s: State, t: nat, s': State)
    requires t in s.stages
  {
    s.stages[t] == InCall && 0 < s.inflight && s' == s.(inflight := s.inflight - 1, stages := s.stages[t := Outside])
  }

  /** The first critical section of close: a second close is turned away. */
  predicate BeginClose(s: State, t: nat, s': State)
    requires t in s.stages
  {
    && s.stages[t] == Outside && !s.freed
    && if s.closing then s' == s else s' == s.(closing := true, stages := s.stages[t := Closing])
  }

  predicate ContinueClose(h: nat, s: State, t: nat, s': State)
    requires t in s.stages
  {
    match s.stages[t]
    case Closing => s' == s.(stages := s.stages[t := Woken])
    case Woken => s.heart.Resting? && s' == s.(list := Unlinked(s.list, h), stages := s.stages[t := Unlisted])
    case Unlisted => s.inflight == 0 && s' == s.(stages := s.stages[t := Drained])
    case Drained => s' == s.(freed := true, stages := s.stages[t := Closed])
    case _ => false
  }

  predicate Beat(s: State, s': State) {
    match s.heart
    case Resting => s' == s.(heart := Beating(s.list))
    case Beating(left) => s' == s.(heart := if left == [] then Resting else Beating(left[1..]))
  }

  /** Another handle is opened or closed: it enters the heartbeat list in front, or leaves it. */
  predicate OtherHandle(h: nat, s: State, o: nat, s': State) {
    && o != h && s.heart.Resting?
    && (s' == s.(list := Unlinked(s.list, o)) || (o !in s.list && s' == s.(list := [o] + s.list)))
  }

  predicate ThreadStep(h: nat, s: State, t: nat, s': State)
    requires t in s.stages
  {
    Enter(s, t, s') || Leave(s, t, s') || BeginClose(s, t, s') || ContinueClose(h, s, t, s')
  }

  ghost predicate Step(h: nat, s: State, s': State) {
    || Beat(s, s')
    || (exists o :: OtherHandle(h, s, o, s'))
    || (exists t :: t in s.stages && ThreadStep(h, s, t, s'))
  }

  ghost predicate IsRun(h: nat, run: seq<State>) {
    && 0 < |run| && Initial(h, run[0])
    && forall i :: 0 <= i < |run| - 1 ==> Step(h, run[i], run[i + 1])
  }

  predicate IsCloser(stage: Stage) { stage != Outside && stage != InCall }

  predicate PastList(stage: Stage) { stage == Unlisted || stage == Drained || stage == Closed }

  function Callers(stages: map<nat, Stage>): set<nat> {
    set t | t in stages && stages[t] == InCall
  }

  ghost predicate Inv(h: nat, s: State) {
    && Distinct(s.list)
    && s.inflight == |Callers(s.stages)|
    && (s.heart.Beating? ==> forall x :: x in s.heart.left ==> x in s.list)
    && (forall t, u :: t in s.stages && u in s.stages && IsCloser(s.stages[t]) && IsCloser(s.stages[u]) ==> t == u)
    && (s.closing <==> exists t :: t in s.stages && IsCloser(s.stages[t]))
    && (s.freed ==> exists t :: t in s.stages && s.stages[t] == Closed)
    && (forall t :: t in s.stages && s.stages[t] == Closed ==> s.freed)
    && (forall t :: t in s.stages && PastList(s.stages[t]) ==> h !in s.list)
    && (forall t :: t in s.stages && (s.stages[t] == Drained || s.stages[t] == Closed) ==> s.inflight == 0)
  }

  lemma CallersStep(stages: map<nat, Stage>, t: nat, stage: Stage)
    requires t in stages
    ensures stage == InCall && stages[t] != InCall ==> |Callers(stages[t := stage])| == |Callers(stages)| + 1
    ensures stage != InCall && stages[t] == InCall ==> |Callers(stages[t := stage])| == |Callers(stages)| - 1
    ensures stage != InCall && stages[t] != InCall ==> Callers(stages[t := stage]) == Callers(stages)
  {
    if stage == InCall && stages[t] != InCall {
      assert Callers(stages[t := stage]) == Callers(stages) + {t};
    } else if stage != InCall && stages[t] == InCall {
      assert Callers(stages[t := stage]) == Callers(stages) - {t};
    }
  }

  lemma StepKeepsInv(h: nat, s: State, s': State)
    requires Inv(h, s) && Step(h, s, s')
    ensures Inv(h, s')
  {
    hide Inv, Enter, Leave, BeginClose, ContinueClose, Beat, OtherHandle;
    if Beat(s, s') {
      BeatStep(h, s, s');
    } else if o: nat :| OtherHandle(h, s, o, s') {
      OtherStep(h, s, o, s');
    } else {
      var t :| t in s.stages && ThreadStep(h, s, t, s');
      if Enter(s, t, s') || Leave(s, t, s') {
        CallStep(h, s, t, s');
      } else if BeginClose(s, t, s') {
        BeginStep(h, s, t, s');
      } else {
        ContinueStep(h, s, t, s');
      }
    }
  }

  lemma BeatStep(h: nat, s: State, s': State)
    requires Inv(h, s) && Beat(s, s')
    ensures Inv(h, s')
  {
  }

  lemma OtherStep(h: nat, s: State, o: nat, s': State)
    requires Inv(h, s) && OtherHandle(h, s, o, s')
    ensures Inv(h, s')
  {
    UnlinkedGone(s.list, o);
    if o !in s.list {
      DistinctCons(o, s.list);
    }
    hide Unlinked, Distinct, Callers;
  }

  lemma CallStep(h: nat, s: State, t: nat, s': State)
    requires Inv(h, s) && t in s.stages && (Enter(s, t, s') || Leave(s, t, s'))
    ensures Inv(h, s')
  {
    CallersStep(s.stages, t, s'.stages[t]);
    hide Callers, Distinct;
    if u :| u in s.stages && IsCloser(s.stages[u]) {
      assert u in s'.stages && s'.stages[u] == s.stages[u];
    }
  }

  lemma BeginStep(h: nat, s: State, t: nat, s': State)
    requires Inv(h, s) && t in s.stages && BeginClose(s, t, s')
    ensures Inv(h, s')
  {
    CallersStep(s.stages, t, s'.stages[t]);
    hide Callers, Distinct;
  }

  lemma ContinueStep(h: nat, s: State, t: nat, s': State)
    requires Inv(h, s) && t in s.stages && ContinueClose(h, s, t, s')
    ensures Inv(h, s')
  {
    CallersStep(s.stages, t, s'.stages[t]);
    UnlinkedGone(s.list, h);
    hide Callers, Unlinked, Distinct;
    if s'.freed {
      assert t in s'.stages && s'.stages[t] == Closed;
    }
  }

  /** In every interleaving: once the handle is freed, no admitted call is running and the heartbeat
      thread can no longer reach it; and it is only freed by the one thread whose close was not
      turned away. */
  lemma {:induction false} FreedUnused(h: nat, run: seq<State>)
    requires IsRun(h, run)
    ensures Inv(h, run[|run| - 1])
    ensures var s := run[|run| - 1];
            s.freed ==>
              && s.inflight == 0 && (forall t :: t in s.stages ==> s.stages[t] != InCall)
              && h !in s.list && (s.heart.Beating? ==> h !in s.heart.left)
  {
    var s := run[|run| - 1];
    if |run| > 1 {
      var before := run[..|run| - 1];
      assert forall i :: 0 <= i < |before| ==> before[i] == run[i];
      FreedUnused(h, before);
      StepKeepsInv(h, run[|run| - 2], s);
    } else {
      assert Callers(s.stages) == {};
    }
    if s.freed {
      assert |Callers(s.stages)| == 0;
      assert forall t :: t in s.stages && s.stages[t] == InCall ==> t in Callers(s.stages);
    }
  }

  /** From the moment closing is set it stays set, and no further call is admitted. */
  lemma {:induction false} NoneAdmitted(h: nat, run: seq<State>, i: nat, j: nat)
    requires IsRun(h, run) && i <= j < |run| && run[i].closing
    ensures run[j].closing && run[j].admitted == run[i].admitted
    decreases j - i
  {
    if i < j {
      NoneAdmitted(h, run, i, j - 1);
      assert Step(h, run[j - 1], run[j - 1 + 1]);
    }
  }

  /** Whenever the heartbeat thread visits the handle, or a call returns from it, it is not freed. */
  lemma TouchedIsLive(h: nat, s: State, s': State)
    requires Inv(h, s) && Step(h, s, s')
    ensures Beat(s, s') && s.heart.Beating? && s.heart.left != [] && s.heart.left[0] == h ==> !s.freed
    ensures forall t :: t in s.stages && s.stages[t] == InCall ==> !s.freed
  {
    forall t | t in s.stages && s.stages[t] == InCall
      ensures !s.freed
    {
      assert t in Callers(s.stages);
    }
  }

  /** A finite piece of a run in which every step is one the finishing of a close needs: the heartbeat
      thread, a call that returns, or the closing thread. */
  ghost predicate IsFinish(h: nat, path: seq<State>) {
    0 < |path| && forall i :: 0 <= i < |path| - 1 ==> FinishStep(h, path[i], path[i + 1])
  }

  ghost predicate FinishStep(h: nat, s: State, s': State) {
    || Beat(s, s')
    || exists t :: t in s.stages && (Leave(s, t, s') || ContinueClose(h, s, t, s'))
  }

  lemma FinishIsStep(h: nat, s: State, s': State)
    requires FinishStep(h, s, s')
    ensures Step(h, s, s')
  {
    hide Beat, Leave, ContinueClose, Enter, BeginClose;
    if !Beat(s, s') {
      var t :| t in s.stages && (Leave(s, t, s') || ContinueClose(h, s, t, s'));
      assert ThreadStep(h, s, t, s');
    }
  }

  lemma Then(h: nat, first: State, rest: seq<State>)
    requires IsFinish(h, rest) && FinishStep(h, first, rest[0])
    ensures IsFinish(h, [first] + rest) && ([first] + rest)[|rest|] == rest[|rest| - 1]
  {
    hide FinishStep;
    var path := [first] + rest;
    forall i | 0 <= i < |path| - 1 ensures FinishStep(h, path[i], path[i + 1]) {
      if i > 0 {
        assert path[i] == rest[i - 1] && path[i + 1] == rest[i];
      }
    }
  }

  /** How far the closing thread still has to go. */
  function Rank(stage: Stage): nat {
    match stage
    case Closing => 4
    case Woken => 3
    case Unlisted => 2
    case Drained => 1
    case _ => 0
  }

  function Round(heart: Heart): nat { if heart.Resting? then 0 else |heart.left| + 1 }

  /** From every reachable state in which a close has begun, the calls in progress returning, the
      closing thread can finish and free the handle; it waits for nothing else but the heartbeat
      thread's round. */
  lemma {:induction false} CanFinish(h: nat, s: State, t: nat) returns (path: seq<State>)
    requires Inv(h, s) && t in s.stages && IsCloser(s.stages[t])
    ensures IsFinish(h, path) && path[0] == s && path[|path| - 1].freed
    decreases s.inflight, Rank(s.stages[t]), Round(s.heart)
  {
    if s.freed {
      path := [s];
    } else {
      var s' := NextFinish(h, s, t);
      FinishIsStep(h, s, s');
      StepKeepsInv(h, s, s');
      var rest := CanFinish(h, s', t);
      Then(h, s, rest);
      path := [s] + rest;
    }
  }

  /** One step nearer to the end. */
  lemma NextFinish(h: nat, s: State, t: nat) returns (s': State)
    requires Inv(h, s) && t in s.stages && IsCloser(s.stages[t]) && !s.freed
    ensures FinishStep(h, s, s') && t in s'.stages && IsCloser(s'.stages[t])
    ensures || s'.inflight < s.inflight
            || (s'.inflight == s.inflight && Rank(s'.stages[t]) < Rank(s.stages[t]))
            || (s'.inflight == s.inflight && Rank(s'.stages[t]) == Rank(s.stages[t]) &&
                Round(s'.heart) < Round(s.heart))
  {
    if s.inflight > 0 {
      s' := CallReturns(h, s, t);
    } else if s.heart.Beating? {
      s' := s.(heart := if s.heart.left == [] then Resting else Beating(s.heart.left[1..]));
      assert Beat(s, s');
    } else {
      match s.stages[t] {
        case Closing => s' := s.(stages := s.stages[t := Woken]);
        case Woken => s' := s.(list := Unlinked(s.list, h), stages := s.stages[t := Unlisted]);
        case Unlisted => s' := s.(stages := s.stages[t := Drained]);
        case Drained => s' := s.(freed := true, stages := s.stages[t := Closed]);
        case Closed => assert false;
      }
      assert ContinueClose(h, s, t, s');
    }
  }

  lemma CallReturns(h: nat, s: State, t: nat) returns (s': State)
    requires Inv(h, s) && t in s.stages && IsCloser(s.stages[t]) && s.inflight > 0
    ensures FinishStep(h, s, s') && t in s'.stages && IsCloser(s'.stages[t]) && s'.inflight < s.inflight
  {
    assert Callers(s.stages) != {};
    var u :| u in Callers(s.stages);
    s' := s.(inflight := s.inflight - 1, stages := s.stages[u := Outside]);
    assert Leave(s, u, s');
  }

  /** Closing always can come to its end, and once no call is running needs none to return. */
  lemma CloseCompletes(h: nat, run: seq<State>) returns (path: seq<State>)
    requires IsRun(h, run) && run[|run| - 1].closing
    ensures IsFinish(h, path) && path[0] == run[|run| - 1] && path[|path| - 1].freed
    ensures run[|run| - 1].inflight == 0 ==> forall i :: 0 <= i < |path| ==> path[i].inflight == 0
  {
    FreedUnused(h, run);
    var s := run[|run| - 1];
    var t :| t in s.stages && IsCloser(s.stages[t]);
    path := CanFinish(h, s, t);
    if s.inflight == 0 {
      StaysDrained(h, path);
    }
  }

  lemma {:induction false} StaysDrained(h: nat, path: seq<State>)
    requires IsFinish(h, path) && path[0].inflight == 0
    ensures forall i :: 0 <= i < |path| ==> path[i].inflight == 0
  {
    if |path| > 1 {
      assert FinishStep(h, path[0], path[0 + 1]);
      var rest := path[1..];
      assert forall i :: 0 <= i < |rest| ==> rest[i] == path[i + 1];
      StaysDrained(h, rest);
      assert forall i :: 1 <= i < |path| ==> path[i] == rest[i - 1];
    }
  }
}
