/** The reference circuit breaker, one call at a time. Times are milliseconds since the breaker
    was created. */
module CircuitBreaker {
  import opened Wrappers

  const U32: nat := 0x1_0000_0000

  type u32 = n: nat | n < U32

  datatype State = Closed | Open | HalfOpen

  datatype Config = Config(failureThreshold: u32, resetTimeoutMs: nat)

  /** The three atomics of a breaker. */
  datatype Cells = Cells(state: State, failureCount: u32, lastFailureMs: u32)

  const INITIAL: Cells := Cells(Closed, 0, 0)

  function SaturatingSub(a: nat, b: nat): nat {
    if a >= b then a - b else 0
  }

  function AfterCheck(cfg: Config, c: Cells, now: nat): Cells {
    if c.state.Open? && SaturatingSub(now, c.lastFailureMs) >= cfg.resetTimeoutMs then c.(state := HalfOpen) else c
  }

  predicate Admits(cfg: Config, c: Cells, now: nat) {
    c.state.Open? ==> SaturatingSub(now, c.lastFailureMs) >= cfg.resetTimeoutMs
  }

  function AfterSuccess(c: Cells): Cells {
    c.(failureCount := 0, state := Closed)
  }

  /** The count is a wrapping 32-bit counter, and the time of failure is cut to 32 bits. */
  function AfterFailure(cfg: Config, c: Cells, now: nat): Cells {
    var count := (c.failureCount + 1) % U32;
    Cells(if count >= cfg.failureThreshold then Open else c.state, count, now % U32)
  }

  class DefaultCircuitBreaker {
    const cfg: Config
    var state: State
    var failureCount: u32
    var lastFailureMs: u32

    function View(): Cells
      reads this
    {
      Cells(state, failureCount, lastFailureMs)
    }

    constructor (failureThreshold: u32, resetTimeoutMs: nat)
      ensures cfg == Config(failureThreshold, resetTimeoutMs) && View() == INITIAL
    {
      cfg := Config(failureThreshold, resetTimeoutMs);
      state, failureCount, lastFailureMs := Closed, 0, 0;
    }

    method Check(now: nat) returns (admitted: bool)
      modifies this
      ensures View() == AfterCheck(cfg, old(View()), now)
      ensures admitted == Admits(cfg, old(View()), now)
    {
      match state
      case Closed => admitted := true;
      case HalfOpen => admitted := true;
      case Open =>
        var lastMs := lastFailureMs;
        if SaturatingSub(now, lastMs) >= cfg.resetTimeoutMs {
          state := HalfOpen;
          admitted := true;
        } else {
          admitted := false;
        }
    }

    method RecordSuccess()
      modifies this
      ensures View() == AfterSuccess(old(View()))
    {
      failureCount := 0;
      state := Closed;
    }

    method RecordFailure(now: nat)
      modifies this
      ensures View() == AfterFailure(cfg, old(View()), now)
    {
      failureCount := (failureCount + 1) % U32;
      var count := failureCount;
      lastFailureMs := now % U32;
      if count >= cfg.failureThreshold {
        state := Open;
      }
    }
  }

  // ---- Histories of calls

  datatype Event = Check(at: nat) | Success | Failure(at: nat)

  function After(cfg: Config, c: Cells, e: Event): Cells {
    match e
    case Check(at) => AfterCheck(cfg, c, at)
    case Success => AfterSuccess(c)
    case Failure(at) => AfterFailure(cfg, c, at)
  }

  /** The cells after a history, oldest event first. */
  function Run(cfg: Config, history: seq<Event>): Cells {
    if history == [] then INITIAL
    else After(cfg, Run(cfg, history[..|history| - 1]), history[|history| - 1])
  }

  /** How many failures were recorded since the last success. */
  ghost function FailuresSince(history: seq<Event>): nat {
    if history == [] then 0
    else
      match history[|history| - 1]
      case Success => 0
      case Failure(_) => FailuresSince(history[..|history| - 1]) + 1
      case Check(_) => FailuresSince(history[..|history| - 1])
  }

  /** When the last failure was recorded, 0 if there was none. */
  ghost function LastFailure(history: seq<Event>): nat {
    if history == [] then 0
    else
      match history[|history| - 1]
      case Failure(at) => at
      case _ => LastFailure(history[..|history| - 1])
  }

  /** The latest time mentioned so far. */
  ghost function Latest(history: seq<Event>): nat {
    if history == [] then 0
    else
      match history[|history| - 1]
      case Success => Latest(history[..|history| - 1])
      case Failure(at) => at
      case Check(at) => at
  }

  /** The clock never runs backwards. */
  ghost predicate Monotone(history: seq<Event>) {
    history != [] ==>
      && Monotone(history[..|history| - 1])
      && (match history[|history| - 1]
          case Success => true
          case Failure(at) => Latest(history[..|history| - 1]) <= at
          case Check(at) => Latest(history[..|history| - 1]) <= at)
  }

  /** A threshold of 0 behaves as 1: a breaker only trips when a failure is recorded. */
  ghost function EffectiveThreshold(cfg: Config): nat {
    if cfg.failureThreshold == 0 then 1 else cfg.failureThreshold
  }

  ghost predicate Tripped(cfg: Config, history: seq<Event>) {
    FailuresSince(history) >= EffectiveThreshold(cfg)
  }

  /** Whether the failure that makes it so many since the last success opens the breaker: the
      32-bit count has reached the threshold. */
  ghost predicate Opens(cfg: Config, failures: nat) {
    failures > 0 && failures % U32 >= cfg.failureThreshold
  }

  /** The timeout after the last failure, its time cut to 32 bits, is not over. */
  ghost predicate Waiting(cfg: Config, history: seq<Event>, now: nat) {
    cfg.resetTimeoutMs > 0 && now < LastFailure(history) % U32 + cfg.resetTimeoutMs
  }

  /** Event `k` is a check that finds the breaker tripped and the timeout over. */
  ghost predicate StartsTrial(cfg: Config, history: seq<Event>, k: nat)
    requires k < |history|
  {
    history[k].Check? && Tripped(cfg, history[..k]) && !Waiting(cfg, history[..k], history[k].at)
  }

  /** Event `k` is a success, or a failure that opens the breaker. */
  ghost predicate EndsTrial(cfg: Config, history: seq<Event>, k: nat)
    requires k < |history|
  {
    history[k].Success? || (history[k].Failure? && Opens(cfg, FailuresSince(history[..k + 1])))
  }

  ghost predicate TrialSince(cfg: Config, history: seq<Event>, k: nat) {
    && k < |history| && StartsTrial(cfg, history, k)
    && forall j :: k < j < |history| ==> !EndsTrial(cfg, history, j)
  }

  /** A trial has started and nothing has ended it. */
  ghost predicate OnTrial(cfg: Config, history: seq<Event>) {
    exists k :: TrialSince(cfg, history, k)
  }

  lemma HistorySnoc(history: seq<Event>, e: Event)
    ensures (history + [e])[..|history|] == history && (history + [e])[|history|] == e
  {
  }

  lemma RunSnoc(cfg: Config, history: seq<Event>, e: Event)
    ensures Run(cfg, history + [e]) == After(cfg, Run(cfg, history), e)
  {
    HistorySnoc(history, e);
  }

  lemma TrialSinceSnoc(cfg: Config, history: seq<Event>, e: Event, k: nat)
    requires k < |history|
    ensures TrialSince(cfg, history + [e], k)
            <==> TrialSince(cfg, history, k) && !EndsTrial(cfg, history + [e], |history|)
  {
    var all := history + [e];
    assert forall j :: 0 <= j <= |history| ==> all[..j] == history[..j];
    assert forall j: nat :: j < |history| ==> EndsTrial(cfg, all, j) == EndsTrial(cfg, history, j);
    assert StartsTrial(cfg, all, k) == StartsTrial(cfg, history, k);
  }

  lemma OnTrialSnoc(cfg: Config, history: seq<Event>, e: Event)
    ensures OnTrial(cfg, history + [e])
            <==>
              || (OnTrial(cfg, history) && !e.Success? && !(e.Failure? && Opens(cfg, FailuresSince(history) + 1)))
              || (e.Check? && Tripped(cfg, history) && !Waiting(cfg, history, e.at))
  {
    var all := history + [e];
    HistorySnoc(history, e);
    assert all[..|history| + 1] == all;
    forall k: nat | k < |history|
      ensures TrialSince(cfg, all, k) <==> TrialSince(cfg, history, k) && !EndsTrial(cfg, all, |history|)
    {
      TrialSinceSnoc(cfg, history, e, k);
    }
    if OnTrial(cfg, history) {
      var k :| TrialSince(cfg, history, k);
      assert TrialSince(cfg, all, k) <==> !EndsTrial(cfg, all, |history|);
    }
    if StartsTrial(cfg, all, |history|) {
      assert TrialSince(cfg, all, |history|);
    }
  }

  lemma NothingOnTrial(cfg: Config)
    ensures !OnTrial(cfg, [])
  {
  }

  lemma CountWraps(n: nat)
    ensures (n % U32 + 1) % U32 == (n + 1) % U32
  {
  }

  lemma {:induction false} RunCounts(cfg: Config, history: seq<Event>)
    ensures Run(cfg, history).failureCount == FailuresSince(history) % U32
    ensures Run(cfg, history).lastFailureMs == LastFailure(history) % U32
  {
    if history != [] {
      RunCounts(cfg, history[..|history| - 1]);
      CountWraps(FailuresSince(history[..|history| - 1]));
    }
  }

  lemma FailureState(cfg: Config, c: Cells, failures: nat, at: nat)
    requires c.failureCount == failures % U32
    ensures AfterFailure(cfg, c, at).state == if Opens(cfg, failures + 1) then Open else c.state
  {
    CountWraps(failures);
  }

  lemma OpensAtThreshold(cfg: Config, failures: nat)
    ensures EffectiveThreshold(cfg) > 0
    ensures Opens(cfg, failures) ==> failures >= EffectiveThreshold(cfg)
    ensures failures + 1 == EffectiveThreshold(cfg) ==> Opens(cfg, failures + 1)
  {
  }

  lemma {:induction false} RunState(cfg: Config, history: seq<Event>)
    ensures Run(cfg, history).state.Closed? <==> !Tripped(cfg, history)
    ensures Run(cfg, history).state.HalfOpen? <==> OnTrial(cfg, history)
  {
    hide OnTrial, Opens, AfterFailure, EffectiveThreshold;
    if history == [] {
      NothingOnTrial(cfg);
      OpensAtThreshold(cfg, 0);
    } else {
      var before, e := history[..|history| - 1], history[|history| - 1];
      assert history == before + [e];
      RunCounts(cfg, before);
      RunState(cfg, before);
      OnTrialSnoc(cfg, before, e);
      OpensAtThreshold(cfg, FailuresSince(before));
      OpensAtThreshold(cfg, FailuresSince(before) + 1);
      if e.Failure? {
        FailureState(cfg, Run(cfg, before), FailuresSince(before), e.at);
      }
    }
  }

  /** The cells as a function of the history, for every history: the count wraps at 2^32, the
      breaker is closed exactly below the threshold, and half-open exactly while on trial. */
  lemma RunMeaning(cfg: Config, history: seq<Event>)
    ensures var c := Run(cfg, history);
            && c.failureCount == FailuresSince(history) % U32
            && c.lastFailureMs == LastFailure(history) % U32
            && (c.state.Closed? <==> !Tripped(cfg, history))
            && (c.state.HalfOpen? <==> OnTrial(cfg, history))
  {
    RunCounts(cfg, history);
    RunState(cfg, history);
  }

  /** A check is refused exactly when the failures since the last success have reached the
      threshold, no trial is under way, and less than the reset timeout has passed since the
      recorded time of the last failure. */
  lemma CheckMeaning(cfg: Config, history: seq<Event>, now: nat)
    ensures !Admits(cfg, Run(cfg, history), now)
            <==> Tripped(cfg, history) && !OnTrial(cfg, history) && Waiting(cfg, history, now)
  {
    RunMeaning(cfg, history);
  }

  // ---- Trials

  /** However many checks follow the one that starts a trial, all are admitted until something is
      recorded. */
  lemma {:induction false} TrialAdmitsEveryCheck(cfg: Config, history: seq<Event>, checks: seq<Event>, i: nat)
    requires i < |checks| && forall k :: 0 <= k < |checks| ==> checks[k].Check?
    requires Tripped(cfg, history) && !Waiting(cfg, history, checks[0].at)
    ensures Admits(cfg, Run(cfg, history + checks[..i]), checks[i].at)
    ensures OnTrial(cfg, history + checks[..i + 1])
  {
    if i > 0 {
      TrialAdmitsEveryCheck(cfg, history, checks, i - 1);
    } else {
      assert history + checks[..0] == history;
    }
    var front := history + checks[..i];
    CheckMeaning(cfg, front, checks[i].at);
    OnTrialSnoc(cfg, front, checks[i]);
    assert history + checks[..i + 1] == front + [checks[i]];
  }

  /** A failed trial re-opens the breaker exactly when the 32-bit count is at the threshold;
      otherwise the trial goes on. */
  lemma FailedTrialReopensExactly(cfg: Config, before: seq<Event>, at: nat)
    requires OnTrial(cfg, before)
    ensures var history := before + [Failure(at)];
            && (Run(cfg, history).state.Open? <==> FailuresSince(history) % U32 >= cfg.failureThreshold)
            && (Run(cfg, history).state.HalfOpen? <==> FailuresSince(history) % U32 < cfg.failureThreshold)
  {
    RunMeaning(cfg, before);
    HistorySnoc(before, Failure(at));
    RunMeaning(cfg, before + [Failure(at)]);
    OnTrialSnoc(cfg, before, Failure(at));
  }

  lemma {:induction false} FailuresAt(at: nat, n: nat)
    ensures var history := seq(n, _ => Failure(at));
            && Monotone(history) && Latest(history) == LastFailure(history) == (if n > 0 then at else 0)
            && FailuresSince(history) == n
  {
    if n > 0 {
      FailuresAt(at, n - 1);
      assert seq(n, _ => Failure(at))[..n - 1] == seq(n - 1, _ => Failure(at));
    }
  }

  /** It does not when the count wraps: after 2^32 - 1 failures, a check once the timeout is over
      and one more failure, the breaker is half-open and admits a check it is meant to refuse. */
  lemma WrapLeavesHalfOpen(cfg: Config)
    requires cfg.failureThreshold > 0 && cfg.resetTimeoutMs > 0
    ensures var at := cfg.resetTimeoutMs;
            var history := seq(U32 - 1, _ => Failure(0)) + [Check(at)] + [Failure(at)];
            && Monotone(history) && Latest(history) == at
            && Run(cfg, history) == Cells(HalfOpen, 0, at % U32)
            && Admits(cfg, Run(cfg, history), at) && ShouldRefuse(cfg, history, at)
  {
    var failures, at := seq(U32 - 1, _ => Failure(0)), cfg.resetTimeoutMs;
    var before := failures + [Check(at)];
    FailuresAt(0, U32 - 1);
    HistorySnoc(failures, Check(at));
    HistorySnoc(before, Failure(at));
    OnTrialSnoc(cfg, failures, Check(at));
    FailedTrialReopensExactly(cfg, before, at);
    RunMeaning(cfg, before + [Failure(at)]);
  }

  // ---- What the breaker is meant to do

  /** Refuse from the threshold on, until the timeout after the untruncated time of failure. */
  ghost predicate ShouldRefuse(cfg: Config, history: seq<Event>, now: nat) {
    Tripped(cfg, history) && now < LastFailure(history) + cfg.resetTimeoutMs
  }

  lemma {:induction false} LatestBoundsFailure(history: seq<Event>)
    requires Monotone(history)
    ensures LastFailure(history) <= Latest(history)
  {
    if history != [] {
      LatestBoundsFailure(history[..|history| - 1]);
    }
  }

  /** From any history on, the breaker does what it is meant to do at every later time exactly
      when it has not tripped, or the timeout is over already, or the last failure fell in the
      first 2^32 milliseconds and no trial is under way. */
  lemma RefinesExactly(cfg: Config, history: seq<Event>)
    requires Monotone(history)
    ensures (forall now :: Latest(history) <= now ==>
               (!Admits(cfg, Run(cfg, history), now) <==> ShouldRefuse(cfg, history, now)))
            <==>
              || !Tripped(cfg, history)
              || LastFailure(history) + cfg.resetTimeoutMs <= Latest(history)
              || (LastFailure(history) < U32 && !OnTrial(cfg, history))
  {
    hide Admits, Run, Tripped, OnTrial;
    var latest, last, reset := Latest(history), LastFailure(history), cfg.resetTimeoutMs;
    LatestBoundsFailure(history);
    forall now
      ensures !Admits(cfg, Run(cfg, history), now)
              <==> Tripped(cfg, history) && !OnTrial(cfg, history) && Waiting(cfg, history, now)
    {
      CheckMeaning(cfg, history, now);
    }
    if Tripped(cfg, history) && latest < last + reset && (last >= U32 || OnTrial(cfg, history)) {
      var seen := last % U32 + reset;
      var now := if OnTrial(cfg, history) || seen <= latest then latest else seen;
      assert !(!Admits(cfg, Run(cfg, history), now) <==> ShouldRefuse(cfg, history, now));
    }
  }

  /** A trial only starts late, and a failure that opens the breaker ends it. */
  lemma {:induction false} TrialIsLate(cfg: Config, history: seq<Event>)
    requires Monotone(history) && OnTrial(cfg, history) && Opens(cfg, FailuresSince(history))
    ensures !Waiting(cfg, history, Latest(history))
  {
    var before, e := history[..|history| - 1], history[|history| - 1];
    assert history == before + [e];
    OnTrialSnoc(cfg, before, e);
    if OnTrial(cfg, before) {
      TrialIsLate(cfg, before);
    }
  }

  /** In particular while the count has not wrapped below the threshold. */
  lemma CheckRefines(cfg: Config, history: seq<Event>, now: nat)
    requires Monotone(history) && Latest(history) <= now
    requires LastFailure(history) < U32 && (Tripped(cfg, history) ==> Opens(cfg, FailuresSince(history)))
    ensures !Admits(cfg, Run(cfg, history), now) <==> ShouldRefuse(cfg, history, now)
  {
    LatestBoundsFailure(history);
    RefinesExactly(cfg, history);
    if Tripped(cfg, history) && OnTrial(cfg, history) {
      TrialIsLate(cfg, history);
    }
  }
}
