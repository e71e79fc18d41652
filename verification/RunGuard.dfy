/** The guard that admits one agent run at a time, and the callers that wait for it to be over,
    as atomic steps of any number of runners and waiters. Notifying wakes every waiter that has
    armed its wakeup before. */
module RunGuard {
  import opened Wrappers

  datatype Runner =
    | Outside
    | Active      // holds the flag
    | Clearing    // guard dropped: flag cleared, waiters not yet notified

  datatype Waiter =
    | LoopHead
    | Armed(notified: bool)    // wakeup armed, flag not yet checked
    | Parked(notified: bool)   // saw the flag set, waits for the wakeup
    | Returned

  /** Runners not in the map are outside, waiters not in the map at the head of their loop. */
  datatype System = System(isRunning: bool, runners: map<nat, Runner>, waiters: map<nat, Waiter>)

  const START: System := System(false, map[], map[])

  datatype Step =
    | TryRun(runner: nat)
    | ClearFlag(runner: nat)
    | NotifyWaiters(runner: nat)
    | Arm(waiter: nat)
    | CheckFlag(waiter: nat)
    | Wake(waiter: nat)

  function RunnerAt(s: System, r: nat): Runner {
    if r in s.runners then s.runners[r] else Outside
  }

  function WaiterAt(s: System, w: nat): Waiter {
    if w in s.waiters then s.waiters[w] else LoopHead
  }

  function Notified(w: Waiter): Waiter {
    match w
    case Armed(_) => Armed(true)
    case Parked(_) => Parked(true)
    case _ => w
  }

  function SetRunner(s: System, r: nat, pc: Runner): System {
    s.(runners := s.runners[r := pc])
  }

  function SetWaiter(s: System, w: nat, pc: Waiter): System {
    s.(waiters := s.waiters[w := pc])
  }

  /** The state after one step, if the process can take it. A runner that finds the flag set is
      turned away and stays outside. */
  function Next(s: System, step: Step): Option<System> {
    match step
    case TryRun(r) =>
      if !RunnerAt(s, r).Outside? then None
      else if s.isRunning then Some(s)
      else Some(SetRunner(s, r, Active).(isRunning := true))
    case ClearFlag(r) =>
      if RunnerAt(s, r).Active? then Some(SetRunner(s, r, Clearing).(isRunning := false)) else None
    case NotifyWaiters(r) =>
      if RunnerAt(s, r).Clearing?
      then Some(SetRunner(s, r, Outside).(waiters := map w | w in s.waiters :: Notified(s.waiters[w])))
      else None
    case Arm(w) =>
      if WaiterAt(s, w).LoopHead? || WaiterAt(s, w).Returned? then Some(SetWaiter(s, w, Armed(false))) else None
    case CheckFlag(w) =>
      if !WaiterAt(s, w).Armed? then None
      else Some(SetWaiter(s, w, if s.isRunning then Parked(WaiterAt(s, w).notified) else Returned))
    case Wake(w) =>
      if WaiterAt(s, w).Parked? && WaiterAt(s, w).notified then Some(SetWaiter(s, w, LoopHead)) else None
  }

  function Interleave(s: System, steps: seq<Step>): Option<System>
    decreases |steps|
  {
    if steps == [] then Some(s)
    else
      match Next(s, steps[0])
      case None => None
      case Some(next) => Interleave(next, steps[1..])
  }

  /** At most one runner is active, and the flag says whether there is one. */
  ghost predicate MutualExclusion(s: System) {
    && (forall a, b :: RunnerAt(s, a).Active? && RunnerAt(s, b).Active? ==> a == b)
    && (s.isRunning <==> exists r :: RunnerAt(s, r).Active?)
  }

  ghost predicate Busy(s: System) {
    exists r :: !RunnerAt(s, r).Outside?
  }

  /** A parked waiter that was not notified waits for a run that is active or about to notify. */
  ghost predicate NoLostWakeup(s: System) {
    forall w :: WaiterAt(s, w) == Parked(false) ==> Busy(s)
  }

  lemma StepKeepsExclusion(s: System, step: Step)
    requires MutualExclusion(s) && Next(s, step).Some?
    ensures MutualExclusion(Next(s, step).value)
  {
    var t := Next(s, step).value;
    match step {
      case TryRun(r) =>
        assert forall x :: x != r ==> RunnerAt(t, x) == RunnerAt(s, x);
        if !s.isRunning {
          assert RunnerAt(t, r).Active?;
        }
      case ClearFlag(r) =>
        assert RunnerAt(s, r).Active? && forall x :: x != r ==> RunnerAt(t, x) == RunnerAt(s, x);
      case NotifyWaiters(r) =>
        assert forall x :: RunnerAt(t, x).Active? <==> RunnerAt(s, x).Active?;
      case _ =>
        assert forall x :: RunnerAt(t, x) == RunnerAt(s, x);
    }
  }

  lemma StepKeepsWakeups(s: System, step: Step)
    requires MutualExclusion(s) && NoLostWakeup(s) && Next(s, step).Some?
    ensures NoLostWakeup(Next(s, step).value)
  {
    var t := Next(s, step).value;
    forall w | WaiterAt(t, w) == Parked(false)
      ensures Busy(t)
    {
      match step {
        case TryRun(r) =>
          BusyAfterRun(s, r);
        case ClearFlag(r) =>
          assert RunnerAt(t, r).Clearing?;
        case NotifyWaiters(r) =>
        case _ =>
          assert forall x :: RunnerAt(t, x) == RunnerAt(s, x);
          if s.isRunning {
            var x :| RunnerAt(s, x).Active?;
            assert !RunnerAt(t, x).Outside?;
          } else {
            assert WaiterAt(s, w) == Parked(false);
            var x :| !RunnerAt(s, x).Outside?;
            assert !RunnerAt(t, x).Outside?;
          }
      }
    }
  }

  lemma BusyAfterRun(s: System, r: nat)
    requires MutualExclusion(s) && Next(s, TryRun(r)).Some?
    ensures Busy(Next(s, TryRun(r)).value)
  {
    var t := Next(s, TryRun(r)).value;
    if s.isRunning {
      var x :| RunnerAt(s, x).Active?;
      assert !RunnerAt(t, x).Outside?;
    } else {
      assert !RunnerAt(t, r).Outside?;
    }
  }

  lemma {:induction false} InterleavingsKeepInvariants(s: System, steps: seq<Step>)
    requires MutualExclusion(s) && NoLostWakeup(s) && Interleave(s, steps).Some?
    ensures MutualExclusion(Interleave(s, steps).value) && NoLostWakeup(Interleave(s, steps).value)
    decreases |steps|
  {
    if steps != [] {
      StepKeepsExclusion(s, steps[0]);
      StepKeepsWakeups(s, steps[0]);
      InterleavingsKeepInvariants(Next(s, steps[0]).value, steps[1..]);
    }
  }

  /** Under every interleaving of any number of runners and waiters at most one run is active, and
      a parked waiter that was not notified implies a run is active or about to notify. */
  lemma OneRunNoLostWakeup(steps: seq<Step>)
    requires Interleave(START, steps).Some?
    ensures MutualExclusion(Interleave(START, steps).value) && NoLostWakeup(Interleave(START, steps).value)
  {
    InterleavingsKeepInvariants(START, steps);
  }

  lemma {:induction false} InterleaveConcat(s: System, a: seq<Step>, b: seq<Step>)
    ensures Interleave(s, a + b)
            == (match Interleave(s, a) case None => None case Some(mid) => Interleave(mid, b))
    decreases |a|
  {
    if a == [] {
      assert a + b == b;
    } else {
      assert (a + b)[1..] == a[1..] + b;
      if Next(s, a[0]).Some? {
        InterleaveConcat(Next(s, a[0]).value, a[1..], b);
      }
    }
  }

  lemma InterleaveSnoc(s: System, a: seq<Step>, step: Step)
    ensures Interleave(s, a + [step]) == (match Interleave(s, a) case None => None case Some(mid) => Next(mid, step))
  {
    InterleaveConcat(s, a, [step]);
    assert [step][1..] == [];
  }

  /** What a flag check does to a waiter, and a start to a runner, when no run is active and when
      one is. */
  lemma ChecksMeetActiveRuns(s: System, step: Step, w: nat)
    requires MutualExclusion(s) && Next(s, step).Some?
    ensures var t := Next(s, step).value;
            var idle := forall r :: !RunnerAt(s, r).Active?;
            && (step == CheckFlag(w) ==> if idle then WaiterAt(t, w).Returned? else WaiterAt(t, w).Parked?)
            && (!WaiterAt(s, w).Returned? && WaiterAt(t, w).Returned? ==> step == CheckFlag(w))
            && (step == TryRun(w) ==>
                 RunnerAt(s, w).Outside? && if idle then RunnerAt(t, w).Active? else t == s)
  {
  }

  /** In every interleaving a waiter returns in a step exactly if that is its check of the flag and
      meets no active run; a check that meets one parks it. */
  lemma ReturnsWhenIdle(steps: seq<Step>, k: nat, w: nat)
    requires k < |steps| && Interleave(START, steps).Some?
    ensures Interleave(START, steps[..k]).Some? && Interleave(START, steps[..k + 1]).Some?
    ensures var before, after := Interleave(START, steps[..k]).value, Interleave(START, steps[..k + 1]).value;
            var idle := forall r :: !RunnerAt(before, r).Active?;
            && (!WaiterAt(before, w).Returned? ==>
                 (WaiterAt(after, w).Returned? <==> steps[k] == CheckFlag(w) && idle))
            && (steps[k] == CheckFlag(w) && !idle ==> WaiterAt(after, w).Parked?)
  {
    hide Next, Interleave, WaiterAt, RunnerAt, MutualExclusion;
    StepAt(steps, k);
    ChecksMeetActiveRuns(Interleave(START, steps[..k]).value, steps[k], w);
  }

  /** In every interleaving a runner that asks to start becomes active exactly if no run is active;
      otherwise it is turned away and nothing changes. */
  lemma StartsWhenIdle(steps: seq<Step>, k: nat, r: nat)
    requires k < |steps| && Interleave(START, steps).Some? && steps[k] == TryRun(r)
    ensures Interleave(START, steps[..k]).Some? && Interleave(START, steps[..k + 1]).Some?
    ensures var before, after := Interleave(START, steps[..k]).value, Interleave(START, steps[..k + 1]).value;
            if forall x :: !RunnerAt(before, x).Active? then RunnerAt(after, r).Active? else after == before
  {
    hide Next, Interleave, RunnerAt, WaiterAt, MutualExclusion;
    StepAt(steps, k);
    ChecksMeetActiveRuns(Interleave(START, steps[..k]).value, steps[k], r);
  }

  lemma StepAt(steps: seq<Step>, k: nat)
    requires k < |steps| && Interleave(START, steps).Some?
    ensures Interleave(START, steps[..k]).Some?
    ensures Interleave(START, steps[..k + 1]).Some?
    ensures Interleave(START, steps[..k + 1]) == Next(Interleave(START, steps[..k]).value, steps[k])
    ensures MutualExclusion(Interleave(START, steps[..k]).value)
  {
    hide Next, MutualExclusion;
    assert steps == steps[..k + 1] + steps[k + 1..] && steps[..k + 1] == steps[..k] + [steps[k]];
    InterleaveConcat(START, steps[..k + 1], steps[k + 1..]);
    InterleaveSnoc(START, steps[..k], steps[k]);
    OneRunNoLostWakeup(steps[..k]);
  }

  /** Left to itself an active run ends: it clears the flag, notifies, and its runner is outside
      again, free to start the next run. */
  lemma RunEnds(s: System, r: nat)
    requires MutualExclusion(s) && RunnerAt(s, r).Active?
    ensures var end := Interleave(s, [ClearFlag(r)] + [NotifyWaiters(r)]);
            && end.Some? && RunnerAt(end.value, r).Outside? && !end.value.isRunning
            && Next(end.value, TryRun(r)).Some? && RunnerAt(Next(end.value, TryRun(r)).value, r).Active?
  {
    hide MutualExclusion;
    assert ([ClearFlag(r)] + [NotifyWaiters(r)])[1..] == [NotifyWaiters(r)];
    assert [NotifyWaiters(r)][1..] == [];
    var cleared := Next(s, ClearFlag(r)).value;
    var end := Next(cleared, NotifyWaiters(r)).value;
    assert Interleave(cleared, [NotifyWaiters(r)]) == Interleave(end, []);
  }

  /** Some run notified at one of these steps, and the waiter has not armed since. */
  ghost predicate NotifiedSinceArmed(steps: seq<Step>, w: nat) {
    exists j :: 0 <= j < |steps| && steps[j].NotifyWaiters? && forall k :: j < k < |steps| ==> steps[k] != Arm(w)
  }

  lemma {:induction false} NotifiedMeaning(steps: seq<Step>, w: nat)
    requires Interleave(START, steps).Some?
    ensures var pc := WaiterAt(Interleave(START, steps).value, w);
            (pc.Armed? || pc.Parked?) && pc.notified ==> NotifiedSinceArmed(steps, w)
    decreases |steps|
  {
    if steps != [] {
      var front, last := steps[..|steps| - 1], steps[|steps| - 1];
      assert steps == front + [last];
      InterleaveSnoc(START, front, last);
      NotifiedMeaning(front, w);
      var before, after := Interleave(START, front).value, Interleave(START, steps).value;
      var pc := WaiterAt(after, w);
      if (pc.Armed? || pc.Parked?) && pc.notified {
        if last.NotifyWaiters? {
          assert steps[|front|].NotifyWaiters?;
        } else {
          assert (WaiterAt(before, w).Armed? || WaiterAt(before, w).Parked?) && WaiterAt(before, w).notified;
          var j :| 0 <= j < |front| && front[j].NotifyWaiters? && forall k :: j < k < |front| ==> front[k] != Arm(w);
          assert steps[j] == front[j] && forall k :: 0 <= k < |front| ==> steps[k] == front[k];
        }
      }
    }
  }

  /** No waiter wakes unasked: since it armed, some run has notified. */
  lemma WakesOnlyNotified(steps: seq<Step>, k: nat, w: nat)
    requires k < |steps| && Interleave(START, steps).Some? && steps[k] == Wake(w)
    ensures NotifiedSinceArmed(steps[..k], w)
  {
    StepAt(steps, k);
    NotifiedMeaning(steps[..k], w);
  }

  /** The waiter has returned, or will not block at its next wait. */
  ghost predicate WillNotBlock(w: Waiter) {
    w.Returned? || (w.Armed? && w.notified) || (w.Parked? && w.notified)
  }

  lemma {:induction false} StaysNotified(s: System, steps: seq<Step>, w: nat)
    requires Interleave(s, steps).Some? && WillNotBlock(WaiterAt(s, w))
    requires forall k :: 0 <= k < |steps| ==> steps[k] != Wake(w) && steps[k] != Arm(w)
    ensures WillNotBlock(WaiterAt(Interleave(s, steps).value, w))
    decreases |steps|
  {
    if steps != [] {
      var next := Next(s, steps[0]).value;
      assert steps[0] != Wake(w) && steps[0] != Arm(w);
      assert WillNotBlock(WaiterAt(next, w));
      assert forall k :: 0 <= k < |steps[1..]| ==> steps[1..][k] == steps[k + 1];
      StaysNotified(next, steps[1..], w);
    }
  }

  /** Whoever was armed or parked when a run notified does not block, whatever runs start and
      finish in between, until it wakes or arms again. */
  lemma NotifyReachesAll(s: System, r: nat, steps: seq<Step>, w: nat)
    requires Interleave(s, [NotifyWaiters(r)] + steps).Some?
    requires WaiterAt(s, w).Armed? || WaiterAt(s, w).Parked?
    requires forall k :: 0 <= k < |steps| ==> steps[k] != Wake(w) && steps[k] != Arm(w)
    ensures WillNotBlock(WaiterAt(Interleave(s, [NotifyWaiters(r)] + steps).value, w))
  {
    assert ([NotifyWaiters(r)] + steps)[1..] == steps;
    StaysNotified(Next(s, NotifyWaiters(r)).value, steps, w);
  }

  /** What a waiter does next on its own. */
  function OwnStep(s: System, w: nat): Step {
    match WaiterAt(s, w)
    case LoopHead => Arm(w)
    case Returned => Arm(w)
    case Armed(_) => CheckFlag(w)
    case Parked(_) => Wake(w)
  }

  /** Let a waiter take its own steps until it returns, `fuel` of them at most. */
  function Drain(s: System, w: nat, fuel: nat): Option<System>
    decreases fuel
  {
    if WaiterAt(s, w).Returned? then Some(s)
    else if fuel == 0 then None
    else
      match Next(s, OwnStep(s, w))
      case None => None
      case Some(next) => Drain(next, w, fuel - 1)
  }

  /** No waiter is stuck: once every runner is outside, each waiter returns within three steps of
      its own. */
  lemma IdleReleasesWaiters(s: System, w: nat)
    requires MutualExclusion(s) && NoLostWakeup(s) && !Busy(s)
    ensures Drain(s, w, 3).Some? && WaiterAt(Drain(s, w, 3).value, w).Returned?
  {
    assert forall r :: RunnerAt(s, r).Outside?;
    assert !s.isRunning;
    var pc := WaiterAt(s, w);
    if pc.Parked? {
      assert pc.notified;
      var s1 := SetWaiter(s, w, LoopHead);
      assert Next(s, OwnStep(s, w)) == Some(s1);
      DrainFromHead(s1, w);
    } else if pc.LoopHead? {
      DrainFromHead(s, w);
      DrainMore(s, w, 2);
    } else if pc.Armed? {
      assert Drain(SetWaiter(s, w, Returned), w, 2).Some?;
    }
  }

  lemma DrainFromHead(s: System, w: nat)
    requires !s.isRunning && WaiterAt(s, w).LoopHead?
    ensures Drain(s, w, 2).Some? && WaiterAt(Drain(s, w, 2).value, w).Returned?
  {
    var s1 := SetWaiter(s, w, Armed(false));
    var s2 := SetWaiter(s1, w, Returned);
    assert Next(s, OwnStep(s, w)) == Some(s1);
    assert Next(s1, OwnStep(s1, w)) == Some(s2);
    assert Drain(s2, w, 0) == Some(s2);
    assert Drain(s1, w, 1) == Some(s2);
  }

  lemma {:induction false} DrainMore(s: System, w: nat, fuel: nat)
    requires Drain(s, w, fuel).Some?
    ensures Drain(s, w, fuel + 1) == Drain(s, w, fuel)
    decreases fuel
  {
    if !WaiterAt(s, w).Returned? {
      DrainMore(Next(s, OwnStep(s, w)).value, w, fuel - 1);
    }
  }
}
