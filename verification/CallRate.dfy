/** How often a failing upstream is called: any number of invocations of the retry loop, one after
    the other, share one breaker, and every call fails. */
module CallRate {
  import opened Wrappers
  import opened Sequences
  import opened CircuitBreaker
  import opened StreamRetry
  import opened StreamRetryLaws

  // ---- Breaker events of an invocation

  ghost function EventsOf(effects: seq<Effect>): seq<Event> {
    if effects == [] then []
    else
      (match effects[0]
       case Checked(at, _) => [Check(at)]
       case RecordedSuccess => [Success]
       case RecordedFailure(at) => [Failure(at)]
       case _ => []) + EventsOf(effects[1..])
  }

  lemma {:induction false} EventsConcat(a: seq<Effect>, b: seq<Effect>)
    ensures EventsOf(a + b) == EventsOf(a) + EventsOf(b)
  {
    if a == [] {
      assert a + b == b;
    } else {
      assert (a + b)[1..] == a[1..] + b;
      EventsConcat(a[1..], b);
    }
  }

  /** The cells after further events. */
  ghost function Replay(cfg: Config, c: Cells, events: seq<Event>): Cells
    decreases |events|
  {
    if events == [] then c else Replay(cfg, After(cfg, c, events[0]), events[1..])
  }

  lemma {:induction false} ReplayConcat(cfg: Config, c: Cells, a: seq<Event>, b: seq<Event>)
    ensures Replay(cfg, c, a + b) == Replay(cfg, Replay(cfg, c, a), b)
    decreases |a|
  {
    if a == [] {
      assert a + b == b;
    } else {
      assert (a + b)[1..] == a[1..] + b;
      ReplayConcat(cfg, After(cfg, c, a[0]), a[1..], b);
    }
  }

  /** Every admitted check is followed by the failure of its call; nothing else happens. */
  ghost predicate FailingCalls(cfg: Config, c: Cells, events: seq<Event>)
    decreases |events|
  {
    events != [] ==>
      && events[0].Check?
      && if !Admits(cfg, c, events[0].at) then FailingCalls(cfg, AfterCheck(cfg, c, events[0].at), events[1..])
         else
           && |events| >= 2 && events[1].Failure?
           && FailingCalls(cfg, AfterFailure(cfg, AfterCheck(cfg, c, events[0].at), events[1].at), events[2..])
  }

  lemma {:induction false} FailingCallsConcat(cfg: Config, c: Cells, a: seq<Event>, b: seq<Event>)
    requires FailingCalls(cfg, c, a) && FailingCalls(cfg, Replay(cfg, c, a), b)
    ensures FailingCalls(cfg, c, a + b)
    decreases |a|
  {
    if a == [] {
      assert a + b == b;
    } else if !Admits(cfg, c, a[0].at) {
      assert (a + b)[1..] == a[1..] + b;
      FailingCallsConcat(cfg, AfterCheck(cfg, c, a[0].at), a[1..], b);
    } else {
      var c1 := AfterCheck(cfg, c, a[0].at);
      assert Replay(cfg, c, a) == Replay(cfg, c1, a[1..]);
      assert a[1..][1..] == a[2..] && (a + b)[2..] == a[2..] + b;
      assert Replay(cfg, c1, a[1..]) == Replay(cfg, AfterFailure(cfg, c1, a[1].at), a[2..]);
      FailingCallsConcat(cfg, AfterFailure(cfg, c1, a[1].at), a[2..], b);
    }
  }

  /** The times of the checks that let a call through. */
  ghost function CallTimes(cfg: Config, c: Cells, events: seq<Event>): seq<nat>
    decreases |events|
  {
    if events == [] then []
    else
      (if events[0].Check? && Admits(cfg, c, events[0].at) then [events[0].at] else [])
      + CallTimes(cfg, After(cfg, c, events[0]), events[1..])
  }

  lemma {:induction false} CallTimesConcat(cfg: Config, c: Cells, a: seq<Event>, b: seq<Event>)
    ensures CallTimes(cfg, c, a + b) == CallTimes(cfg, c, a) + CallTimes(cfg, Replay(cfg, c, a), b)
    decreases |a|
  {
    if a == [] {
      assert a + b == b;
    } else {
      assert (a + b)[1..] == a[1..] + b;
      CallTimesConcat(cfg, After(cfg, c, a[0]), a[1..], b);
    }
  }

  ghost predicate AlwaysFails(env: Environment) {
    forall k :: env(k).reply.Failed?
  }

  /** What one invocation does to the breaker. */
  ghost predicate Behaves(g: Guard, effects: seq<Effect>, after: Option<Guard>) {
    && FailingCalls(g.cfg, g.cells, EventsOf(effects))
    && after == Some(Guard(g.cfg, Replay(g.cfg, g.cells, EventsOf(effects))))
    && |CallTimes(g.cfg, g.cells, EventsOf(effects))| == Calls(effects)
  }

  lemma TryBehaves(g: Guard, a: Attempt, maxDelay: Option<nat>, attempt: nat)
    requires a.reply.Failed?
    ensures var t := Try([], Some(g), a, maxDelay, attempt); Behaves(g, t.effects, t.guard)
  {
    hide Delay, FailingCalls, Replay, CallTimes, Calls;
    TryEvents(g, a, maxDelay, attempt);
    TryCounts(Some(g), a, maxDelay, attempt);
    if Admits(g.cfg, g.cells, a.checkAt) {
      CallBehaves(g.cfg, g.cells, a.checkAt, a.doneAt);
    } else {
      RefusalBehaves(g.cfg, g.cells, a.checkAt);
    }
  }

  lemma RefusalBehaves(cfg: Config, c: Cells, at: nat)
    requires !Admits(cfg, c, at)
    ensures FailingCalls(cfg, c, [Check(at)])
    ensures Replay(cfg, c, [Check(at)]) == After(cfg, c, Check(at))
    ensures CallTimes(cfg, c, [Check(at)]) == []
  {
    assert [Check(at)][1..] == [];
  }

  lemma CallBehaves(cfg: Config, c: Cells, at: nat, failedAt: nat)
    requires Admits(cfg, c, at)
    ensures FailingCalls(cfg, c, [Check(at), Failure(failedAt)])
    ensures Replay(cfg, c, [Check(at), Failure(failedAt)]) == After(cfg, After(cfg, c, Check(at)), Failure(failedAt))
    ensures CallTimes(cfg, c, [Check(at), Failure(failedAt)]) == [at]
  {
    var events := [Check(at), Failure(failedAt)];
    var c1 := After(cfg, c, Check(at));
    assert events[1..] == [Failure(failedAt)] && events[2..] == [];
    assert [Failure(failedAt)][1..] == [];
    assert Replay(cfg, c1, [Failure(failedAt)]) == Replay(cfg, After(cfg, c1, Failure(failedAt)), []);
    assert CallTimes(cfg, c1, [Failure(failedAt)]) == [] + CallTimes(cfg, After(cfg, c1, Failure(failedAt)), []) == [];
  }

  lemma TryEvents(g: Guard, a: Attempt, maxDelay: Option<nat>, attempt: nat)
    requires a.reply.Failed?
    ensures EventsOf(Try([], Some(g), a, maxDelay, attempt).effects)
            == if Admits(g.cfg, g.cells, a.checkAt) then [Check(a.checkAt), Failure(a.doneAt)] else [Check(a.checkAt)]
  {
    hide Delay, After, Admits;
    var admitted := GuardAdmits(Some(g), a.checkAt);
    OneEvent([], Checked(a.checkAt, admitted));
    if admitted {
      var checked := Note([], Some(g), Checked(a.checkAt, true));
      OneEvent(checked, Called(attempt));
      var called := checked + [Called(attempt)];
      OneEvent(called, RecordedFailure(a.doneAt));
      var failed := Note(called, Some(g), RecordedFailure(a.doneAt));
      var notice := Notified(attempt + 1, MAX_RETRIES, Delay(attempt, maxDelay), ErrorText(a.reply.error));
      OneEvent(failed, notice);
      OneEvent(failed + [notice], Slept(Delay(attempt, maxDelay)));
    }
  }

  lemma OneEvent(log: seq<Effect>, e: Effect)
    ensures EventsOf(log + [e]) == EventsOf(log) + (match e
              case Checked(at, _) => [Check(at)]
              case RecordedSuccess => [Success]
              case RecordedFailure(at) => [Failure(at)]
              case _ => [])
  {
    EventsConcat(log, [e]);
    assert [e][1..] == [];
  }

  lemma BehavesConcat(g: Guard, a: seq<Effect>, mid: Guard, b: seq<Effect>, after: Option<Guard>)
    requires Behaves(g, a, Some(mid)) && Behaves(mid, b, after)
    ensures Behaves(g, a + b, after)
  {
    EventsConcat(a, b);
    FailingCallsConcat(g.cfg, g.cells, EventsOf(a), EventsOf(b));
    ReplayConcat(g.cfg, g.cells, EventsOf(a), EventsOf(b));
    CallTimesConcat(g.cfg, g.cells, EventsOf(a), EventsOf(b));
    CountsConcat(a, b);
  }

  lemma {:induction false} InvocationBehaves(g: Guard, env: Environment, maxDelay: Option<nat>, attempt: nat,
      lastErr: string)
    requires AlwaysFails(env)
    ensures var r := Invoke(Some(g), env, maxDelay, attempt, lastErr); Behaves(g, r.effects, r.guard)
    decreases MAX_RETRIES + 1 - attempt
  {
    hide Retry, Invoke, Try, Behaves;
    if attempt > MAX_RETRIES {
      RunPastEnd(Some(g), env, maxDelay, attempt, lastErr);
      NothingBehaves(g);
    } else {
      EffectsStep(Some(g), env, maxDelay, attempt, lastErr);
      TryBehaves(g, env(attempt), maxDelay, attempt);
      TryEnding(Some(g), env(attempt), maxDelay, attempt);
      var t := Try([], Some(g), env(attempt), maxDelay, attempt);
      if t.ending.None? {
        InvocationBehaves(t.guard.value, env, maxDelay, attempt + 1, t.error);
        var rest := Invoke(t.guard, env, maxDelay, attempt + 1, t.error);
        BehavesConcat(g, t.effects, t.guard.value, rest.effects, rest.guard);
      }
    }
  }

  lemma NothingBehaves(g: Guard)
    ensures Behaves(g, [], Some(g))
  {
  }

  // ---- Invocations one after the other

  datatype Invocation = Invocation(env: Environment, maxDelay: Option<nat>)

  ghost function InvokeAll(g: Guard, invocations: seq<Invocation>): (seq<Effect>, Option<Guard>)
    decreases |invocations|
  {
    if invocations == [] then ([], Some(g))
    else
      var r := Invoke(Some(g), invocations[0].env, invocations[0].maxDelay, 0, "");
      if r.guard.None? then (r.effects, None)
      else
        var (effects, after) := InvokeAll(r.guard.value, invocations[1..]);
        (r.effects + effects, after)
  }

  lemma {:induction false} InvokeAllBehaves(g: Guard, invocations: seq<Invocation>)
    requires forall i :: 0 <= i < |invocations| ==> AlwaysFails(invocations[i].env)
    ensures Behaves(g, InvokeAll(g, invocations).0, InvokeAll(g, invocations).1)
    decreases |invocations|
  {
    hide Invoke, Behaves;
    if invocations == [] {
      NothingBehaves(g);
    } else {
      var r := Invoke(Some(g), invocations[0].env, invocations[0].maxDelay, 0, "");
      InvocationBehaves(g, invocations[0].env, invocations[0].maxDelay, 0, "");
      BehavesGuard(g, r.effects, r.guard);
      assert forall i :: 0 <= i < |invocations[1..]| ==> invocations[1..][i] == invocations[i + 1];
      InvokeAllBehaves(r.guard.value, invocations[1..]);
      var (effects, after) := InvokeAll(r.guard.value, invocations[1..]);
      BehavesConcat(g, r.effects, r.guard.value, effects, after);
    }
  }

  lemma BehavesGuard(g: Guard, effects: seq<Effect>, after: Option<Guard>)
    requires Behaves(g, effects, after)
    ensures after.Some?
  {
  }

  // ---- When calls are made

  /** What holds after a history holds after its beginning. */
  lemma {:induction false} Beginning(history: seq<Event>, events: seq<Event>)
    requires Monotone(history + events)
    ensures Monotone(history) && Latest(history) <= Latest(history + events)
    decreases |events|
  {
    if events == [] {
      assert history + events == history;
    } else {
      var front := events[..|events| - 1];
      assert (history + events)[..|history + events| - 1] == history + front;
      assert (history + events)[|history + events| - 1] == events[|events| - 1];
      Beginning(history, front);
    }
  }

  /** Before this time a stored time of failure cannot mislead the breaker: either it was not cut
      to 32 bits, or the timeout alone is longer than the clock has run. */
  ghost function ClockLimit(cfg: Config): nat {
    if cfg.resetTimeoutMs > U32 then cfg.resetTimeoutMs else U32
  }

  /** How long the breaker makes a call at time `at` wait after so many failures. */
  ghost function Wait(cfg: Config, failures: nat, at: nat): nat {
    if Opens(cfg, failures) && at < ClockLimit(cfg) then cfg.resetTimeoutMs else 0
  }

  lemma AdmittedAfterWait(cfg: Config, history: seq<Event>, at: nat)
    requires Monotone(history) && Latest(history) <= at && Admits(cfg, Run(cfg, history), at)
    ensures LastFailure(history) + Wait(cfg, FailuresSince(history), at) <= at
  {
    LatestBoundsFailure(history);
    CheckMeaning(cfg, history, at);
    if Opens(cfg, FailuresSince(history)) && OnTrial(cfg, history) {
      TrialIsLate(cfg, history);
    }
  }

  /** Every admitted call comes its full timeout after a failure that opened the breaker, exactly up
      to the clock limit. */
  lemma WaitHoldsExactly(cfg: Config, horizon: nat)
    ensures (forall history, at: nat ::
               && Monotone(history) && Latest(history) <= at <= horizon
               && Opens(cfg, FailuresSince(history)) && Admits(cfg, Run(cfg, history), at)
               ==> LastFailure(history) + cfg.resetTimeoutMs <= at)
            <==> horizon < ClockLimit(cfg) || cfg.resetTimeoutMs == 0
  {
    forall history, at: nat | Monotone(history) && Latest(history) <= at <= horizon
                              && Admits(cfg, Run(cfg, history), at)
      ensures LastFailure(history) + Wait(cfg, FailuresSince(history), at) <= at
    {
      AdmittedAfterWait(cfg, history, at);
    }
    if horizon >= ClockLimit(cfg) && cfg.resetTimeoutMs > 0 {
      var history := seq(EffectiveThreshold(cfg), _ => Failure(U32));
      FailuresAt(U32, EffectiveThreshold(cfg));
      CheckMeaning(cfg, history, ClockLimit(cfg));
      assert Admits(cfg, Run(cfg, history), ClockLimit(cfg)) && Opens(cfg, FailuresSince(history));
    }
  }

  /** After `count` failures the breaker makes calls wait: each call comes its wait after the one
      before. */
  ghost predicate Spaced(cfg: Config, times: seq<nat>, count: nat) {
    forall k :: 0 < k < |times| ==> times[k - 1] + Wait(cfg, count + k, times[k]) <= times[k]
  }

  lemma SpacedCons(cfg: Config, at: nat, times: seq<nat>, count: nat)
    requires Spaced(cfg, times, count + 1)
    requires times != [] ==> at + Wait(cfg, count + 1, times[0]) <= times[0]
    ensures Spaced(cfg, [at] + times, count)
  {
    var all := [at] + times;
    forall k | 0 < k < |all|
      ensures all[k - 1] + Wait(cfg, count + k, all[k]) <= all[k]
    {
      if k > 1 {
        assert all[k - 1] == times[k - 2] && all[k] == times[k - 1];
      }
    }
  }

  /** Over any history and any calls that fail: every call is counted, and whenever the count is at
      the threshold the next call comes a reset timeout later. */
  lemma {:induction false} CallsAreSpaced(cfg: Config, history: seq<Event>, events: seq<Event>)
    requires Monotone(history + events) && FailingCalls(cfg, Run(cfg, history), events)
    ensures var times := CallTimes(cfg, Run(cfg, history), events);
            && Spaced(cfg, times, FailuresSince(history))
            && (times != [] ==> LastFailure(history) + Wait(cfg, FailuresSince(history), times[0]) <= times[0])
            && FailuresSince(history + events) == FailuresSince(history) + |times|
    decreases |events|
  {
    if events == [] {
      assert history + events == history;
    } else {
      var c, check := Run(cfg, history), events[0];
      var h1 := history + [check];
      HistorySnoc(history, check);
      RunSnoc(cfg, history, check);
      assert history + events == h1 + events[1..];
      Beginning(h1, events[1..]);
      if !Admits(cfg, c, check.at) {
        CallsAreSpaced(cfg, h1, events[1..]);
        assert [] + CallTimes(cfg, Run(cfg, h1), events[1..]) == CallTimes(cfg, Run(cfg, h1), events[1..]);
      } else {
        AdmittedAfterWait(cfg, history, check.at);
        CallThenFailure(cfg, history, events);
      }
    }
  }

  lemma CallTimesCall(cfg: Config, c: Cells, events: seq<Event>)
    requires |events| >= 2 && events[0].Check? && events[1].Failure? && Admits(cfg, c, events[0].at)
    ensures CallTimes(cfg, c, events)
            == [events[0].at] + CallTimes(cfg, After(cfg, After(cfg, c, events[0]), events[1]), events[2..])
  {
    var c1 := After(cfg, c, events[0]);
    assert events[1..][1..] == events[2..];
    var later := CallTimes(cfg, After(cfg, c1, events[1]), events[2..]);
    assert CallTimes(cfg, c1, events[1..]) == [] + later == later;
  }

  lemma {:induction false} CallThenFailure(cfg: Config, history: seq<Event>, events: seq<Event>)
    requires Monotone(history + events) && FailingCalls(cfg, Run(cfg, history), events)
    requires events != [] && Admits(cfg, Run(cfg, history), events[0].at)
    ensures var times := CallTimes(cfg, Run(cfg, history), events);
            && times != [] && times[0] == events[0].at
            && Spaced(cfg, times, FailuresSince(history))
            && FailuresSince(history + events) == FailuresSince(history) + |times|
    decreases |events|, 0
  {
    var c, check, failure := Run(cfg, history), events[0], events[1];
    var h1 := history + [check];
    var h2 := h1 + [failure];
    HistorySnoc(history, check);
    HistorySnoc(h1, failure);
    RunSnoc(cfg, history, check);
    RunSnoc(cfg, h1, failure);
    assert history + events == h2 + events[2..];
    Beginning(h2, events[2..]);
    CallsAreSpaced(cfg, h2, events[2..]);
    var later := CallTimes(cfg, Run(cfg, h2), events[2..]);
    CallTimesCall(cfg, c, events);
    SpacedCons(cfg, check.at, later, FailuresSince(history));
  }

  // ---- The rate of calls

  /** The positions of the calls made between `from` and `from + window`. */
  ghost function InWindow(times: seq<nat>, from: nat, window: nat): set<nat> {
    set k: nat | k < |times| && from <= times[k] <= from + window
  }

  /** How many of the counts from 1 to `n` leave the breaker as it is: those below the threshold,
      again after each wrap. */
  ghost function Free(cfg: Config, n: nat): int {
    if cfg.failureThreshold == 0 then 0
    else
      n / U32 * cfg.failureThreshold
      + (if n % U32 < cfg.failureThreshold then n % U32 else cfg.failureThreshold - 1)
  }

  lemma FreeStep(cfg: Config, n: nat)
    ensures Free(cfg, n + 1) == Free(cfg, n) + (if Opens(cfg, n + 1) then 0 else 1)
  {
    var q, r, limit := n / U32, n % U32, cfg.failureThreshold;
    if r == U32 - 1 {
      assert (n + 1) / U32 == q + 1 && (n + 1) % U32 == 0;
      assert (q + 1) * limit == q * limit + limit;
    } else {
      assert (n + 1) / U32 == q && (n + 1) % U32 == r + 1;
    }
  }

  lemma FreeBound(cfg: Config, m: nat, n: nat)
    requires m <= n
    ensures Free(cfg, n) - Free(cfg, m) <= (n / U32 - m / U32) * EffectiveThreshold(cfg) + EffectiveThreshold(cfg) - 1
  {
    DivideMonotone(m, n);
    var p, q, limit := m / U32, n / U32, cfg.failureThreshold;
    assert q * limit - p * limit == (q - p) * limit;
  }

  lemma DivideMonotone(m: nat, n: nat)
    requires m <= n
    ensures m / U32 <= n / U32
  {
  }

  lemma {:induction false} SpacedApart(cfg: Config, times: seq<nat>, count: nat, j: nat, k: nat)
    requires Spaced(cfg, times, count) && j <= k < |times| && times[k] < ClockLimit(cfg)
    ensures var waits := (k - j) - (Free(cfg, count + k) - Free(cfg, count + j));
            waits >= 0 && times[j] + waits * cfg.resetTimeoutMs <= times[k]
    decreases k - j
  {
    hide Free, Opens;
    if j < k {
      var reset := cfg.resetTimeoutMs;
      SpacedApart(cfg, times, count, j, k - 1);
      FreeStep(cfg, count + k - 1);
      var before := (k - 1 - j) - (Free(cfg, count + k - 1) - Free(cfg, count + j));
      assert (before + 1) * reset == before * reset + reset;
    }
  }

  lemma QuotientBound(n: nat, reset: nat, window: nat)
    requires reset > 0 && n * reset <= window
    ensures n <= window / reset
  {
    if n > window / reset {
      MultiplyMonotone(window / reset + 1, n, reset);
    }
  }

  lemma MultiplyMonotone(a: nat, b: nat, c: nat)
    requires a <= b
    ensures a * c <= b * c
  {
  }

  lemma RangeCount(s: set<nat>, a: nat, b: nat)
    requires a <= b && forall k :: k in s ==> a <= k <= b
    ensures |s| <= b - a + 1
    decreases b - a
  {
    if a == b {
      assert s <= {a};
      SubsetCount(s, {a});
    } else {
      RangeCount(s - {b}, a, b - 1);
      SubsetCount(s, (s - {b}) + {b});
    }
  }

  lemma SubsetCount<T>(a: set<T>, b: set<T>)
    requires a <= b
    ensures |a| <= |b|
  {
    assert b == a + (b - a) && a !! b - a;
  }

  /** In any window, spaced calls number at most the threshold, once more for each wrap of the
      count, plus one per reset timeout. */
  lemma WindowBound(cfg: Config, times: seq<nat>, count: nat, from: nat, window: nat)
    requires cfg.resetTimeoutMs > 0 && Spaced(cfg, times, count) && from + window < ClockLimit(cfg)
    ensures |InWindow(times, from, window)|
         <= EffectiveThreshold(cfg) * (1 + ((count + |times|) / U32 - count / U32)) + window / cfg.resetTimeoutMs
  {
    hide EffectiveThreshold;
    var s := InWindow(times, from, window);
    var limit, reset := EffectiveThreshold(cfg), cfg.resetTimeoutMs;
    var wraps := (count + |times|) / U32 - count / U32;
    DivideMonotone(count, count + |times|);
    QuotientBound(0, reset, window);
    if s == {} {
      assert 0 <= limit * (1 + wraps);
    } else {
      var a := Least(s);
      var b := Greatest(s);
      RangeCount(s, a, b);
      SpanBound(cfg, times, count, from, window, a, b);
      DivideMonotone(count + b, count + |times|);
      DivideMonotone(count, count + a);
      var crossed := (count + b) / U32 - (count + a) / U32;
      MultiplyMonotone(crossed, wraps, limit);
      assert limit * (1 + wraps) == wraps * limit + limit;
    }
  }

  /** The positions `a` to `b` lie in one window. */
  lemma SpanBound(cfg: Config, times: seq<nat>, count: nat, from: nat, window: nat, a: nat, b: nat)
    requires cfg.resetTimeoutMs > 0 && Spaced(cfg, times, count) && from + window < ClockLimit(cfg)
    requires a <= b < |times| && from <= times[a] && times[b] <= from + window
    ensures (count + a) / U32 <= (count + b) / U32
    ensures var crossed := (count + b) / U32 - (count + a) / U32;
            b - a + 1 <= crossed * EffectiveThreshold(cfg) + EffectiveThreshold(cfg) + window / cfg.resetTimeoutMs
  {
    hide Free, Spaced, EffectiveThreshold;
    SpacedApart(cfg, times, count, a, b);
    DivideMonotone(count + a, count + b);
    FreeBound(cfg, count + a, count + b);
    QuotientBound((b - a) - (Free(cfg, count + b) - Free(cfg, count + a)), cfg.resetTimeoutMs, window);
  }

  lemma Least(s: set<nat>) returns (a: nat)
    requires s != {}
    ensures a in s && forall k: nat :: k in s ==> a <= k
    decreases |s|
  {
    var x :| x in s;
    if s == {x} {
      a := x;
    } else {
      var rest := s - {x};
      assert rest != {} by { assert s == rest + {x}; }
      a := Least(rest);
      a := if x < a then x else a;
    }
  }

  lemma Greatest(s: set<nat>) returns (b: nat)
    requires s != {}
    ensures b in s && forall k: nat :: k in s ==> k <= b
    decreases |s|
  {
    var x :| x in s;
    if s == {x} {
      b := x;
    } else {
      var rest := s - {x};
      assert rest != {} by { assert s == rest + {x}; }
      b := Greatest(rest);
      b := if b < x then x else b;
    }
  }

  /** In the window there are at most as many calls as the threshold, once more for each wrap of
      the count during the run, plus one for each reset timeout that fits in the window. */
  ghost predicate WithinRate(cfg: Config, history: seq<Event>, events: seq<Event>, from: nat, window: nat)
    requires cfg.resetTimeoutMs > 0
  {
    var wraps := FailuresSince(history + events) / U32 - FailuresSince(history) / U32;
    |InWindow(CallTimes(cfg, Run(cfg, history), events), from, window)|
    <= EffectiveThreshold(cfg) * (1 + wraps) + window / cfg.resetTimeoutMs
  }

  /** A breaker with any history, then only calls that fail. */
  ghost predicate FailingRun(cfg: Config, history: seq<Event>, events: seq<Event>) {
    Monotone(history + events) && FailingCalls(cfg, Run(cfg, history), events)
  }

  lemma FailingRunsWithinRate(cfg: Config, history: seq<Event>, events: seq<Event>, from: nat, window: nat)
    requires cfg.resetTimeoutMs > 0 && from + window < ClockLimit(cfg)
    requires FailingRun(cfg, history, events)
    ensures WithinRate(cfg, history, events, from, window)
  {
    hide EffectiveThreshold, FailingCalls, InWindow, CallTimes, Spaced, Run, FailuresSince;
    CallsAreSpaced(cfg, history, events);
    WindowBound(cfg, CallTimes(cfg, Run(cfg, history), events), FailuresSince(history), from, window);
  }

  /** Against an upstream that always fails, invocations sharing a breaker, whatever happened to it
      before, stay within that rate in every window that ends before the clock limit. */
  lemma CallRateBound(cfg: Config, history: seq<Event>, invocations: seq<Invocation>, from: nat, window: nat)
    requires cfg.resetTimeoutMs > 0 && from + window < ClockLimit(cfg)
    requires forall i :: 0 <= i < |invocations| ==> AlwaysFails(invocations[i].env)
    requires Monotone(history + EventsOf(InvokeAll(Guard(cfg, Run(cfg, history)), invocations).0))
    ensures var effects := InvokeAll(Guard(cfg, Run(cfg, history)), invocations).0;
            && |CallTimes(cfg, Run(cfg, history), EventsOf(effects))| == Calls(effects)
            && WithinRate(cfg, history, EventsOf(effects), from, window)
  {
    var g := Guard(cfg, Run(cfg, history));
    InvokeAllBehaves(g, invocations);
    FailingRunsWithinRate(cfg, history, EventsOf(InvokeAll(g, invocations).0), from, window);
  }

  // ---- Past the first 2^32 milliseconds

  /** So many calls at one time, each checked and failing at once. */
  ghost function CallsAt(at: nat, n: nat): seq<Event> {
    if n == 0 then [] else [Check(at), Failure(at)] + CallsAt(at, n - 1)
  }

  /** When the time itself, cut to 32 bits, is a reset timeout ago, nothing holds calls back. */
  lemma {:induction false} AllAdmitted(cfg: Config, c: Cells, at: nat, n: nat)
    requires SaturatingSub(at, c.lastFailureMs) >= cfg.resetTimeoutMs
    requires SaturatingSub(at, at % U32) >= cfg.resetTimeoutMs
    ensures FailingCalls(cfg, c, CallsAt(at, n))
    ensures CallTimes(cfg, c, CallsAt(at, n)) == seq(n, _ => at)
    decreases n
  {
    if n > 0 {
      var events := CallsAt(at, n);
      var c1 := AfterCheck(cfg, c, at);
      assert events[2..] == CallsAt(at, n - 1);
      AllAdmitted(cfg, AfterFailure(cfg, c1, at), at, n - 1);
      CallTimesCall(cfg, c, events);
      assert [at] + seq(n - 1, _ => at) == seq(n, _ => at);
    }
  }

  lemma {:induction false} CallsAtMonotone(history: seq<Event>, at: nat, n: nat)
    requires Monotone(history) && Latest(history) <= at
    ensures Monotone(history + CallsAt(at, n))
    decreases n
  {
    if n == 0 {
      assert history + [] == history;
    } else {
      var h1 := history + [Check(at)];
      var h2 := h1 + [Failure(at)];
      HistorySnoc(history, Check(at));
      HistorySnoc(h1, Failure(at));
      CallsAtMonotone(h2, at, n - 1);
      assert history + CallsAt(at, n) == h2 + CallsAt(at, n - 1);
    }
  }

  lemma {:induction false} AllInWindow(at: nat, n: nat, from: nat, window: nat)
    requires from <= at <= from + window
    ensures |InWindow(seq(n, _ => at), from, window)| == n
  {
    if n > 0 {
      AllInWindow(at, n - 1, from, window);
      assert InWindow(seq(n, _ => at), from, window) == InWindow(seq(n - 1, _ => at), from, window) + {n - 1};
    }
  }

  lemma RunNothing(cfg: Config)
    ensures Run(cfg, []) == INITIAL
  {
  }

  lemma LateCalls(cfg: Config, at: nat, n: nat, from: nat, window: nat)
    requires 0 < cfg.resetTimeoutMs <= U32 <= at && from <= at <= from + window
    ensures FailingRun(cfg, [], CallsAt(at, n))
    ensures |InWindow(CallTimes(cfg, Run(cfg, []), CallsAt(at, n)), from, window)| == n
    ensures FailuresSince([] + CallsAt(at, n)) == n
  {
    hide FailingCalls, InWindow, CallTimes, Spaced, Run;
    var events := CallsAt(at, n);
    assert [] + events == events;
    CallsAtMonotone([], at, n);
    RunNothing(cfg);
    AllAdmitted(cfg, INITIAL, at, n);
    CallsAreSpaced(cfg, [], events);
    AllInWindow(at, n, from, window);
  }

  /** Enough calls to outweigh a threshold and a number of timeouts. */
  lemma ManyCalls(limit: nat, timeouts: nat) returns (n: nat)
    requires limit < U32
    ensures n > limit * (1 + n / U32) + timeouts
  {
    var wraps := limit + timeouts + 1;
    n := wraps * U32;
    MultiplyMonotone(limit + 1, U32, wraps);
    assert limit * (1 + wraps) == limit * wraps + limit;
    assert n / U32 == wraps;
  }

  /** Once the window reaches 2^32 milliseconds there is a run beyond the rate. */
  lemma LateRunBeyondRate(cfg: Config, from: nat, window: nat) returns (events: seq<Event>)
    requires 0 < cfg.resetTimeoutMs <= U32 <= from + window
    ensures FailingRun(cfg, [], events) && !WithinRate(cfg, [], events, from, window)
  {
    hide FailingRun, InWindow, CallTimes, Run;
    QuotientBound(0, cfg.resetTimeoutMs, window);
    var n := ManyCalls(EffectiveThreshold(cfg), window / cfg.resetTimeoutMs);
    LateCalls(cfg, from + window, n, from, window);
    events := CallsAt(from + window, n);
  }

  /** For a timeout within 32 bits, every failing run stays within the rate exactly if the window
      ends before 2^32 milliseconds. */
  lemma RateHoldsExactly(cfg: Config, from: nat, window: nat)
    requires 0 < cfg.resetTimeoutMs <= U32
    ensures (forall history, events :: FailingRun(cfg, history, events) ==>
               WithinRate(cfg, history, events, from, window))
            <==> from + window < U32
  {
    if from + window < U32 {
      forall history, events | FailingRun(cfg, history, events)
        ensures WithinRate(cfg, history, events, from, window)
      {
        FailingRunsWithinRate(cfg, history, events, from, window);
      }
    } else {
      var events := LateRunBeyondRate(cfg, from, window);
    }
  }
}
