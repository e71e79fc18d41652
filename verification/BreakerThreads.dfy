/** The circuit breaker under any number of threads: each call is a sequence of atomic loads,
    stores and one fetch-and-add, and the threads' steps interleave freely. */
module BreakerThreads {
  import opened Wrappers
  import opened CircuitBreaker

  /** Where a thread stands inside a call; what it has read or must still store. */
  datatype Pc =
    | Idle
    | SawOpen                 // check: loaded Open, will load the failure time
    | SawTime(lastMs: nat)    // check: will compare with the clock
    | OwesHalfOpen            // check: will store HalfOpen
    | Counted(count: nat)     // record_failure: incremented, will store the time
    | OwesOpen                // record_failure: will store Open
    | OwesClosed              // record_success: cleared the count, will store Closed

  datatype Action =
    | LoadState | LoadTime | Compare(now: nat) | StoreHalfOpen
    | Increment | StoreTime(now: nat) | StoreOpen
    | ClearCount | StoreClosed

  datatype Step = Step(thread: nat, action: Action)

  /** Threads outside `pcs` are idle. */
  datatype System = System(cells: Cells, pcs: map<nat, Pc>)

  const START: System := System(INITIAL, map[])

  function PcOf(s: System, thread: nat): Pc {
    if thread in s.pcs then s.pcs[thread] else Idle
  }

  /** The cells and the thread's position after one atomic step, if the thread can take it. */
  function Act(cfg: Config, c: Cells, pc: Pc, a: Action): Option<(Cells, Pc)> {
    match (pc, a)
    case (Idle, LoadState) => Some((c, if c.state.Open? then SawOpen else Idle))
    case (SawOpen, LoadTime) => Some((c, SawTime(c.lastFailureMs)))
    case (SawTime(lastMs), Compare(now)) =>
      Some((c, if SaturatingSub(now, lastMs) >= cfg.resetTimeoutMs then OwesHalfOpen else Idle))
    case (OwesHalfOpen, StoreHalfOpen) => Some((c.(state := HalfOpen), Idle))
    case (Idle, Increment) =>
      var count := (c.failureCount + 1) % U32;
      Some((c.(failureCount := count), Counted(count)))
    case (Counted(count), StoreTime(now)) =>
      Some((c.(lastFailureMs := now % U32), if count >= cfg.failureThreshold then OwesOpen else Idle))
    case (OwesOpen, StoreOpen) => Some((c.(state := Open), Idle))
    case (Idle, ClearCount) => Some((c.(failureCount := 0), OwesClosed))
    case (OwesClosed, StoreClosed) => Some((c.(state := Closed), Idle))
    case _ => None
  }

  function Next(cfg: Config, s: System, step: Step): Option<System> {
    match Act(cfg, s.cells, PcOf(s, step.thread), step.action)
    case None => None
    case Some((cells, pc)) => Some(System(cells, s.pcs[step.thread := pc]))
  }

  /** The state after an interleaving, if every step in it can be taken. */
  function Interleave(cfg: Config, s: System, steps: seq<Step>): Option<System>
    decreases |steps|
  {
    if steps == [] then Some(s)
    else
      match Next(cfg, s, steps[0])
      case None => None
      case Some(next) => Interleave(cfg, next, steps[1..])
  }

  /** The steps of one whole call, as a thread takes them when nobody interferes. */
  function CallSteps(cfg: Config, c: Cells, e: Event): seq<Action> {
    match e
    case Check(at) =>
      if !c.state.Open? then [LoadState]
      else if SaturatingSub(at, c.lastFailureMs) >= cfg.resetTimeoutMs
      then [LoadState, LoadTime, Compare(at), StoreHalfOpen]
      else [LoadState, LoadTime, Compare(at)]
    case Success => [ClearCount, StoreClosed]
    case Failure(at) =>
      if (c.failureCount + 1) % U32 >= cfg.failureThreshold then [Increment, StoreTime(at), StoreOpen]
      else [Increment, StoreTime(at)]
  }

  function ActAll(cfg: Config, c: Cells, pc: Pc, actions: seq<Action>): Option<(Cells, Pc)>
    decreases |actions|
  {
    if actions == [] then Some((c, pc))
    else
      match Act(cfg, c, pc, actions[0])
      case None => None
      case Some((c', pc')) => ActAll(cfg, c', pc', actions[1..])
  }

  lemma ActCons(cfg: Config, c: Cells, pc: Pc, a: Action, rest: seq<Action>)
    ensures ActAll(cfg, c, pc, [a] + rest)
            == (match Act(cfg, c, pc, a) case None => None case Some(r) => ActAll(cfg, r.0, r.1, rest))
    ensures |rest| == 0 ==> [a] + rest == [a]
    ensures |rest| == 1 ==> [a] + rest == [a, rest[0]]
    ensures |rest| == 2 ==> [a] + rest == [a, rest[0], rest[1]]
    ensures |rest| == 3 ==> [a] + rest == [a, rest[0], rest[1], rest[2]]
  {
    assert ([a] + rest)[1..] == rest;
  }

  /** Taken without interference, the atomic steps of a call add up to the call. */
  lemma SoloCall(cfg: Config, c: Cells, e: Event)
    ensures ActAll(cfg, c, Idle, CallSteps(cfg, c, e)) == Some((After(cfg, c, e), Idle))
  {
    match e {
      case Check(at) => SoloCheck(cfg, c, at);
      case Success =>
        ActCons(cfg, c.(failureCount := 0), OwesClosed, StoreClosed, []);
        ActCons(cfg, c, Idle, ClearCount, [StoreClosed]);
      case Failure(at) => SoloFailure(cfg, c, at);
    }
  }

  lemma SoloCheck(cfg: Config, c: Cells, at: nat)
    ensures ActAll(cfg, c, Idle, CallSteps(cfg, c, Check(at))) == Some((AfterCheck(cfg, c, at), Idle))
  {
    var seen := SawTime(c.lastFailureMs);
    if !c.state.Open? {
      ActCons(cfg, c, Idle, LoadState, []);
    } else if SaturatingSub(at, c.lastFailureMs) >= cfg.resetTimeoutMs {
      ActCons(cfg, c, OwesHalfOpen, StoreHalfOpen, []);
      ActCons(cfg, c, seen, Compare(at), [StoreHalfOpen]);
      ActCons(cfg, c, SawOpen, LoadTime, [Compare(at), StoreHalfOpen]);
      ActCons(cfg, c, Idle, LoadState, [LoadTime, Compare(at), StoreHalfOpen]);
    } else {
      ActCons(cfg, c, seen, Compare(at), []);
      ActCons(cfg, c, SawOpen, LoadTime, [Compare(at)]);
      ActCons(cfg, c, Idle, LoadState, [LoadTime, Compare(at)]);
    }
  }

  lemma SoloFailure(cfg: Config, c: Cells, at: nat)
    ensures ActAll(cfg, c, Idle, CallSteps(cfg, c, Failure(at))) == Some((AfterFailure(cfg, c, at), Idle))
  {
    var count := (c.failureCount + 1) % U32;
    var counted := c.(failureCount := count);
    if count >= cfg.failureThreshold {
      ActCons(cfg, counted.(lastFailureMs := at % U32), OwesOpen, StoreOpen, []);
      ActCons(cfg, counted, Counted(count), StoreTime(at), [StoreOpen]);
      ActCons(cfg, c, Idle, Increment, [StoreTime(at), StoreOpen]);
    } else {
      ActCons(cfg, counted, Counted(count), StoreTime(at), []);
      ActCons(cfg, c, Idle, Increment, [StoreTime(at)]);
    }
  }

  ghost predicate Quiescent(s: System) {
    forall t :: t in s.pcs ==> s.pcs[t].Idle?
  }

  /** The thread will still store Open. */
  ghost predicate WillOpen(cfg: Config, pc: Pc) {
    pc.OwesOpen? || (pc.Counted? && pc.count >= cfg.failureThreshold)
  }

  ghost predicate OpenOwed(cfg: Config, s: System) {
    exists t :: t in s.pcs && WillOpen(cfg, s.pcs[t])
  }

  ghost predicate OverThreshold(cfg: Config, s: System) {
    s.cells.failureCount >= EffectiveThreshold(cfg)
  }

  /** The count has reached the threshold, yet the breaker is closed and nobody will open it. */
  ghost predicate TripLost(cfg: Config, s: System) {
    OverThreshold(cfg, s) && s.cells.state.Closed? && !OpenOwed(cfg, s)
  }

  lemma OwedBy(cfg: Config, s: System, t: nat)
    requires t in s.pcs && WillOpen(cfg, s.pcs[t])
    ensures OpenOwed(cfg, s)
  {
  }

  /** A step loses the trip exactly when it stores Closed over a count that has reached the
      threshold while no thread will store Open. */
  lemma StepLosesTrip(cfg: Config, s: System, step: Step)
    requires Next(cfg, s, step).Some? && !TripLost(cfg, s)
    ensures TripLost(cfg, Next(cfg, s, step).value)
            <==> step.action.StoreClosed? && OverThreshold(cfg, s) && !OpenOwed(cfg, s)
  {
    var s' := Next(cfg, s, step).value;
    var t := step.thread;
    if WillOpen(cfg, PcOf(s', t)) {
      OwedBy(cfg, s', t);
    }
    if OpenOwed(cfg, s) {
      var u :| u in s.pcs && WillOpen(cfg, s.pcs[u]);
      if u != t {
        OwedBy(cfg, s', u);
      }
    }
    if OpenOwed(cfg, s') {
      var u :| u in s'.pcs && WillOpen(cfg, s'.pcs[u]);
      if u != t {
        OwedBy(cfg, s, u);
      }
    }
  }

  /** Every store of Closed in the run meets a count below the threshold or a pending Open. */
  ghost predicate ClosesSafely(cfg: Config, s: System, steps: seq<Step>)
    decreases |steps|
  {
    steps != [] && Next(cfg, s, steps[0]).Some? ==>
      && (steps[0].action.StoreClosed? ==> !OverThreshold(cfg, s) || OpenOwed(cfg, s))
      && ClosesSafely(cfg, Next(cfg, s, steps[0]).value, steps[1..])
  }

  /** No state along the run has lost a trip. */
  ghost predicate NeverLost(cfg: Config, s: System, steps: seq<Step>)
    decreases |steps|
  {
    && !TripLost(cfg, s)
    && (steps != [] && Next(cfg, s, steps[0]).Some? ==> NeverLost(cfg, Next(cfg, s, steps[0]).value, steps[1..]))
  }

  lemma {:induction false} NeverLostMeaning(cfg: Config, s: System, steps: seq<Step>, k: nat)
    requires NeverLost(cfg, s, steps) && k <= |steps| && Interleave(cfg, s, steps[..k]).Some?
    ensures !TripLost(cfg, Interleave(cfg, s, steps[..k]).value)
    decreases k
  {
    if k > 0 {
      assert steps[..k][0] == steps[0] && steps[..k][1..] == steps[1..][..k - 1];
      NeverLostMeaning(cfg, Next(cfg, s, steps[0]).value, steps[1..], k - 1);
    }
  }

  /** A run never loses a trip exactly if all its stores of Closed are safe. */
  lemma {:induction false} NoTripLostExactly(cfg: Config, s: System, steps: seq<Step>)
    requires !TripLost(cfg, s)
    ensures NeverLost(cfg, s, steps) <==> ClosesSafely(cfg, s, steps)
    decreases |steps|
  {
    if steps != [] && Next(cfg, s, steps[0]).Some? {
      var next := Next(cfg, s, steps[0]).value;
      StepLosesTrip(cfg, s, steps[0]);
      if !TripLost(cfg, next) {
        NoTripLostExactly(cfg, next, steps[1..]);
      }
    }
  }

  // ---- Schedules that keep failures out of a success

  /** No thread stands between the two stores of a success. */
  ghost predicate NobodyCloses(s: System) {
    forall t :: t in s.pcs ==> !s.pcs[t].OwesClosed?
  }

  /** No failure is counted between the two stores of a success. */
  ghost predicate CountsApart(cfg: Config, s: System, steps: seq<Step>)
    decreases |steps|
  {
    steps != [] && Next(cfg, s, steps[0]).Some? ==>
      && (steps[0].action.Increment? ==> NobodyCloses(s))
      && CountsApart(cfg, Next(cfg, s, steps[0]).value, steps[1..])
  }

  lemma StepKeepsCleared(cfg: Config, s: System, step: Step)
    requires Next(cfg, s, step).Some? && (NobodyCloses(s) || s.cells.failureCount == 0)
    requires step.action.Increment? ==> NobodyCloses(s)
    ensures NobodyCloses(Next(cfg, s, step).value) || Next(cfg, s, step).value.cells.failureCount == 0
    ensures step.action.StoreClosed? ==> s.cells.failureCount == 0
  {
    var s' := Next(cfg, s, step).value;
    assert forall t :: t in s'.pcs ==> t == step.thread || (t in s.pcs && s'.pcs[t] == s.pcs[t]);
  }

  /** With such a schedule every run keeps every trip, successes and all. */
  lemma {:induction false} ApartClosesSafely(cfg: Config, s: System, steps: seq<Step>)
    requires CountsApart(cfg, s, steps) && (NobodyCloses(s) || s.cells.failureCount == 0)
    ensures ClosesSafely(cfg, s, steps)
    decreases |steps|
  {
    if steps != [] && Next(cfg, s, steps[0]).Some? {
      StepKeepsCleared(cfg, s, steps[0]);
      ApartClosesSafely(cfg, Next(cfg, s, steps[0]).value, steps[1..]);
    }
  }

  lemma ApartLosesNoTrip(cfg: Config, steps: seq<Step>)
    requires CountsApart(cfg, START, steps)
    ensures NeverLost(cfg, START, steps)
  {
    ApartClosesSafely(cfg, START, steps);
    NoTripLostExactly(cfg, START, steps);
  }

  // ---- The count

  lemma {:induction false} InterleaveSnoc(cfg: Config, s: System, steps: seq<Step>, step: Step)
    ensures Interleave(cfg, s, steps + [step])
            == (match Interleave(cfg, s, steps) case None => None case Some(mid) => Next(cfg, mid, step))
    decreases |steps|
  {
    hide Next;
    if steps == [] {
      assert [] + [step] == [step] && [step][1..] == [];
    } else {
      assert (steps + [step])[1..] == steps[1..] + [step];
      if Next(cfg, s, steps[0]).Some? {
        InterleaveSnoc(cfg, Next(cfg, s, steps[0]).value, steps[1..], step);
      }
    }
  }

  /** How many failures were counted since the count was last cleared. */
  ghost function IncrementsSince(steps: seq<Step>): nat {
    if steps == [] then 0
    else
      match steps[|steps| - 1].action
      case ClearCount => 0
      case Increment => IncrementsSince(steps[..|steps| - 1]) + 1
      case _ => IncrementsSince(steps[..|steps| - 1])
  }

  lemma StepCounts(cfg: Config, s: System, step: Step)
    requires Next(cfg, s, step).Some?
    ensures Next(cfg, s, step).value.cells.failureCount
            == if step.action.ClearCount? then 0
               else if step.action.Increment? then (s.cells.failureCount + 1) % U32
               else s.cells.failureCount
  {
  }

  /** However the threads interleave, successes included, no increment is lost and none survives a
      clearing. */
  lemma {:induction false} CountIsIncrements(cfg: Config, steps: seq<Step>)
    requires Interleave(cfg, START, steps).Some?
    ensures Interleave(cfg, START, steps).value.cells.failureCount == IncrementsSince(steps) % U32
  {
    hide Next;
    if steps != [] {
      var front, step := steps[..|steps| - 1], steps[|steps| - 1];
      assert steps == front + [step];
      InterleaveSnoc(cfg, START, front, step);
      CountIsIncrements(cfg, front);
      StepCounts(cfg, Interleave(cfg, START, front).value, step);
      CountWraps(IncrementsSince(front));
    }
  }

  // ---- Calls that others interrupt

  ghost predicate ByOthers(steps: seq<Step>, t: nat) {
    forall k :: 0 <= k < |steps| ==> steps[k].thread != t
  }

  lemma {:induction false} OthersKeepPc(cfg: Config, s: System, steps: seq<Step>, t: nat)
    requires Interleave(cfg, s, steps).Some? && ByOthers(steps, t)
    ensures PcOf(Interleave(cfg, s, steps).value, t) == PcOf(s, t)
    decreases |steps|
  {
    if steps != [] {
      assert steps[0].thread != t;
      assert forall k :: 0 <= k < |steps[1..]| ==> steps[1..][k] == steps[k + 1];
      OthersKeepPc(cfg, Next(cfg, s, steps[0]).value, steps[1..], t);
    }
  }

  /** One step of a thread, then any steps of others. */
  lemma StepThenOthers(cfg: Config, s: System, step: Step, others: seq<Step>)
    requires Interleave(cfg, s, [step] + others).Some? && ByOthers(others, step.thread)
    ensures Next(cfg, s, step).Some?
    ensures PcOf(Interleave(cfg, s, [step] + others).value, step.thread) == PcOf(Next(cfg, s, step).value, step.thread)
  {
    hide Next, PcOf;
    assert ([step] + others)[1..] == others;
    OthersKeepPc(cfg, Next(cfg, s, step).value, others, step.thread);
  }

  /** A check that loaded Open decides by the time of failure it loaded, whatever is stored before it
      compares. */
  lemma CheckUsesLoadedTime(cfg: Config, s: System, t: nat, others: seq<Step>, now: nat)
    requires PcOf(s, t).SawOpen? && ByOthers(others, t)
    requires Interleave(cfg, s, [Step(t, LoadTime)] + others).Some?
    ensures var mid := Interleave(cfg, s, [Step(t, LoadTime)] + others).value;
            var end := Next(cfg, mid, Step(t, Compare(now)));
            && end.Some? && end.value.cells == mid.cells
            && PcOf(end.value, t)
               == if cfg.resetTimeoutMs > 0 && now < s.cells.lastFailureMs + cfg.resetTimeoutMs then Idle else OwesHalfOpen
  {
    hide Interleave;
    StepThenOthers(cfg, s, Step(t, LoadTime), others);
  }

  /** Once it has decided to admit, its store of HalfOpen replaces any state, a Closed one too, and
      nothing else. */
  lemma LateStoreOverwrites(cfg: Config, s: System, t: nat, others: seq<Step>)
    requires PcOf(s, t).OwesHalfOpen? && ByOthers(others, t) && Interleave(cfg, s, others).Some?
    ensures var mid := Interleave(cfg, s, others).value;
            Next(cfg, mid, Step(t, StoreHalfOpen)) == Some(System(mid.cells.(state := HalfOpen), mid.pcs[t := Idle]))
  {
    hide Interleave;
    OthersKeepPc(cfg, s, others, t);
  }

  /** A failure opens the breaker by the count it made itself, whatever the count is by then. */
  lemma FailureUsesItsCount(cfg: Config, s: System, t: nat, others: seq<Step>, now: nat)
    requires PcOf(s, t).Idle? && ByOthers(others, t)
    requires Interleave(cfg, s, [Step(t, Increment)] + others).Some?
    ensures var mid := Interleave(cfg, s, [Step(t, Increment)] + others).value;
            var end := Next(cfg, mid, Step(t, StoreTime(now)));
            && end.Some? && end.value.cells == mid.cells.(lastFailureMs := now % U32)
            && PcOf(end.value, t)
               == if (s.cells.failureCount + 1) % U32 >= cfg.failureThreshold then OwesOpen else Idle
  {
    hide Interleave;
    StepThenOthers(cfg, s, Step(t, Increment), others);
  }

  // ---- Runs without a success

  ghost predicate NoSuccess(steps: seq<Step>) {
    forall k :: 0 <= k < |steps| ==> !steps[k].action.ClearCount?
  }

  ghost function Increments(steps: seq<Step>): nat {
    if steps == [] then 0
    else Increments(steps[..|steps| - 1]) + (if steps[|steps| - 1].action.Increment? then 1 else 0)
  }

  lemma {:induction false} AllIncrementsCount(steps: seq<Step>)
    requires NoSuccess(steps)
    ensures IncrementsSince(steps) == Increments(steps)
  {
    if steps != [] {
      assert !steps[|steps| - 1].action.ClearCount?;
      AllIncrementsCount(steps[..|steps| - 1]);
    }
  }

  lemma StepWithoutSuccess(cfg: Config, s: System, step: Step)
    requires Next(cfg, s, step).Some? && !step.action.ClearCount? && NobodyCloses(s)
    ensures NobodyCloses(Next(cfg, s, step).value)
  {
    var s' := Next(cfg, s, step).value;
    assert forall t :: t in s'.pcs ==> t == step.thread || (t in s.pcs && s'.pcs[t] == s.pcs[t]);
  }

  lemma {:induction false} WithoutSuccess(cfg: Config, s: System, steps: seq<Step>)
    requires NoSuccess(steps) && NobodyCloses(s)
    ensures CountsApart(cfg, s, steps)
    decreases |steps|
  {
    hide Next, NobodyCloses;
    if steps != [] && Next(cfg, s, steps[0]).Some? {
      assert !steps[0].action.ClearCount?;
      assert forall k :: 0 <= k < |steps[1..]| ==> steps[1..][k] == steps[k + 1];
      StepWithoutSuccess(cfg, s, steps[0]);
      WithoutSuccess(cfg, Next(cfg, s, steps[0]).value, steps[1..]);
    }
  }

  /** Under every interleaving of checks and failures by any number of threads, no increment is
      lost, and once the count has reached the threshold the breaker is not closed or some
      thread still owes the store of Open. When all calls have returned it is Open or HalfOpen. */
  lemma NoSuccessNoTripLost(cfg: Config, steps: seq<Step>)
    requires Interleave(cfg, START, steps).Some? && NoSuccess(steps)
    ensures var s := Interleave(cfg, START, steps).value;
            && s.cells.failureCount == Increments(steps) % U32
            && (OverThreshold(cfg, s) ==> !s.cells.state.Closed? || OpenOwed(cfg, s))
            && (OverThreshold(cfg, s) && Quiescent(s) ==> s.cells.state.Open? || s.cells.state.HalfOpen?)
  {
    CountIsIncrements(cfg, steps);
    AllIncrementsCount(steps);
    WithoutSuccess(cfg, START, steps);
    ApartLosesNoTrip(cfg, steps);
    assert steps[..|steps|] == steps;
    NeverLostMeaning(cfg, START, steps, |steps|);
  }

  /** A success clears the count, a failure trips the breaker, the success closes it again. */
  function LosingSteps(now: nat): seq<Step> {
    [Step(0, ClearCount), Step(1, Increment), Step(1, StoreTime(now)), Step(1, StoreOpen), Step(0, StoreClosed)]
  }

  lemma LosingStates(cfg: Config, now: nat) returns (s: seq<System>)
    requires cfg.failureThreshold == 1
    ensures |s| == 6 && s[0] == START
    ensures forall k :: 0 <= k < 5 ==> Next(cfg, s[k], LosingSteps(now)[k]) == Some(s[k + 1])
    ensures s[5] == System(Cells(Closed, 1, now % U32), map[0 := Idle, 1 := Idle])
  {
    var s1 := System(INITIAL, map[0 := OwesClosed]);
    var s2 := System(Cells(Closed, 1, 0), s1.pcs[1 := Counted(1)]);
    var s3 := System(Cells(Closed, 1, now % U32), s2.pcs[1 := OwesOpen]);
    var s4 := System(Cells(Open, 1, now % U32), s3.pcs[1 := Idle]);
    var s5 := System(Cells(Closed, 1, now % U32), s4.pcs[0 := Idle]);
    s := [START, s1, s2, s3, s4, s5];
    assert s5.pcs == map[0 := Idle, 1 := Idle];
  }

  /** With a success in flight the trip can be lost: a failure that trips the breaker between the
      two stores of a success is overwritten, and the breaker stays closed at its threshold. */
  lemma SuccessCanLoseTrip(cfg: Config, now: nat)
    requires cfg.failureThreshold == 1
    ensures var end := Interleave(cfg, START, LosingSteps(now));
            end.Some? && Quiescent(end.value) && TripLost(cfg, end.value)
  {
    hide Interleave, Next;
    var s := LosingStates(cfg, now);
    InterleaveStates(cfg, s, LosingSteps(now));
  }

  lemma {:induction false} InterleaveStates(cfg: Config, s: seq<System>, steps: seq<Step>)
    requires |s| == |steps| + 1
    requires forall k :: 0 <= k < |steps| ==> Next(cfg, s[k], steps[k]) == Some(s[k + 1])
    ensures Interleave(cfg, s[0], steps) == Some(s[|steps|])
    decreases |steps|
  {
    hide Next;
    if steps != [] {
      var rest, later := s[1..], steps[1..];
      forall k | 0 <= k < |later|
        ensures Next(cfg, rest[k], later[k]) == Some(rest[k + 1])
      {
        assert rest[k] == s[k + 1] && later[k] == steps[k + 1] && rest[k + 1] == s[k + 2];
      }
      InterleaveStates(cfg, rest, later);
      assert Next(cfg, s[0], steps[0]) == Some(s[1]);
    }
  }
}
