/** The whole of what one invocation of the retry loop does, with every constant written out, and
    that its log is true to the breaker. */
module RetryTranscript {
  import opened Wrappers
  import opened CircuitBreaker
  import opened StreamRetry
  import opened StreamRetryLaws

  ghost function Backoff(k: nat, cap: Option<nat>): nat {
    var secs := if k == 0 then 2 else if k == 1 then 4 else 8;
    if cap.Some? && cap.value < secs then cap.value else secs
  }

  /** How an error reads. */
  ghost function Reason(e: ProviderError): string {
    if e.MissingApiKey? then "Missing API key"
    else if e.RequestFailed? then "Request failed: " + e.detail
    else e.detail
  }

  lemma ReasonIsText(e: ProviderError)
    ensures ErrorText(e) == Reason(e)
  {
  }

  ghost function CallOf(guarded: bool, a: Attempt, k: nat): seq<Effect> {
    if !guarded then [Called(k)]
    else if a.reply.Stream? then [Checked(a.checkAt, true), Called(k), RecordedSuccess]
    else [Checked(a.checkAt, true), Called(k), RecordedFailure(a.doneAt)]
  }

  ghost function PauseOf(k: nat, cap: Option<nat>, e: ProviderError): seq<Effect> {
    [Notified(k + 1, 3, Backoff(k, cap), Reason(e)), Slept(Backoff(k, cap))]
  }

  /** The effects of attempts `k` to `n`, the last of them refused by the breaker or called. */
  ghost function Story(guarded: bool, env: Environment, cap: Option<nat>, k: nat, n: nat, refused: bool): seq<Effect>
    requires k <= n && forall j :: k <= j < n ==> env(j).reply.Failed?
    decreases n - k
  {
    if k < n then
      CallOf(guarded, env(k), k) + PauseOf(k, cap, env(k).reply.error)
      + Story(guarded, env, cap, k + 1, n, refused)
    else if refused then [Checked(env(k).checkAt, false)]
    else CallOf(guarded, env(k), k)
  }

  /** How the loop ends with attempt `n`. */
  ghost function EndingOf(a: Attempt, n: nat): Outcome {
    match a.reply
    case Stream => Streaming
    case Failed(e) =>
      if e.MissingApiKey? then ApiKeyMissing
      else if n == 0 then StreamError(Reason(e))
      else RetriesExhausted(3, Reason(e))
  }

  lemma DelayIsBackoff(k: nat, cap: Option<nat>)
    requires k < 3
    ensures Delay(k, cap) == Backoff(k, cap)
  {
    assert Pow2(1) == 2 && Pow2(2) == 4 && Pow2(3) == 8;
  }

  lemma TryRefused(guard: Option<Guard>, a: Attempt, cap: Option<nat>, k: nat)
    requires !GuardAdmits(guard, a.checkAt)
    ensures var t := Try([], guard, a, cap, k);
            t.ending == Some(BreakerRefused) && t.effects == [Checked(a.checkAt, false)]
  {
  }

  lemma TryCalled(guard: Option<Guard>, a: Attempt, cap: Option<nat>, k: nat)
    requires GuardAdmits(guard, a.checkAt) && k <= 3
    ensures var t := Try([], guard, a, cap, k);
            if IsLast(a, k) && (k == 3 ==> t.ending.Some?) then
              t.ending == Some(EndingOf(a, k)) && t.effects == CallOf(guard.Some?, a, k)
            else
              && a.reply.Failed? && t.ending.None? && t.error == Reason(a.reply.error)
              && t.effects
                 == CallOf(guard.Some?, a, k) + (if k < 3 then PauseOf(k, cap, a.reply.error) else [])
  {
    hide Delay, After, FailsFast, ErrorText;
    if k < 3 {
      DelayIsBackoff(k, cap);
    }
    if a.reply.Failed? {
      FailsFastMeaning(a.reply.error, k);
      ReasonIsText(a.reply.error);
    }
  }

  /** The effects and the outcome of an invocation are those of attempts up to the first one that
      ends it, or up to a refused check. */
  lemma {:induction false} InvocationTranscript(guard: Option<Guard>, env: Environment, cap: Option<nat>, k: nat,
      lastErr: string) returns (n: nat, refused: bool)
    requires k <= 3
    ensures k <= n <= 3 && (refused ==> guard.Some?) && (!refused ==> IsLast(env(n), n))
    ensures forall j :: k <= j < n ==> env(j).reply.Failed? && !IsLast(env(j), j)
    ensures var r := Invoke(guard, env, cap, k, lastErr);
            && r.effects == Story(guard.Some?, env, cap, k, n, refused)
            && r.outcome == if refused then BreakerRefused else EndingOf(env(n), n)
    decreases 3 - k
  {
    hide Retry, Invoke, Try;
    EffectsStep(guard, env, cap, k, lastErr);
    TryEnding(guard, env(k), cap, k);
    n, refused := k, !GuardAdmits(guard, env(k).checkAt);
    if refused {
      TryRefused(guard, env(k), cap, k);
    } else {
      TryCalled(guard, env(k), cap, k);
      var t := Try([], guard, env(k), cap, k);
      if t.ending.None? && k < 3 {
        n, refused := InvocationTranscript(t.guard, env, cap, k + 1, t.error);
      } else if t.ending.None? {
        RunPastEnd(t.guard, env, cap, k + 1, t.error);
      }
    }
  }

  // ---- The log is true to the breaker

  /** Played back, the logged checks and records lead the breaker from `c` to `end`, and every
      check was answered as logged. */
  ghost predicate Drives(cfg: Config, c: Cells, effects: seq<Effect>, end: Cells)
    decreases |effects|
  {
    if effects == [] then c == end
    else
      match effects[0]
      case Checked(at, admitted) =>
        admitted == Admits(cfg, c, at) && Drives(cfg, AfterCheck(cfg, c, at), effects[1..], end)
      case RecordedSuccess => Drives(cfg, AfterSuccess(c), effects[1..], end)
      case RecordedFailure(at) => Drives(cfg, AfterFailure(cfg, c, at), effects[1..], end)
      case _ => Drives(cfg, c, effects[1..], end)
  }

  lemma {:induction false} DrivesConcat(cfg: Config, c: Cells, a: seq<Effect>, mid: Cells, b: seq<Effect>, end: Cells)
    requires Drives(cfg, c, a, mid) && Drives(cfg, mid, b, end)
    ensures Drives(cfg, c, a + b, end)
    decreases |a|
  {
    if a == [] {
      assert a + b == b;
    } else {
      assert (a + b)[1..] == a[1..] + b;
      match a[0] {
        case Checked(at, _) => DrivesConcat(cfg, AfterCheck(cfg, c, at), a[1..], mid, b, end);
        case RecordedSuccess => DrivesConcat(cfg, AfterSuccess(c), a[1..], mid, b, end);
        case RecordedFailure(at) => DrivesConcat(cfg, AfterFailure(cfg, c, at), a[1..], mid, b, end);
        case _ => DrivesConcat(cfg, c, a[1..], mid, b, end);
      }
    }
  }

  lemma CallDrives(cfg: Config, c: Cells, a: Attempt, k: nat)
    requires Admits(cfg, c, a.checkAt)
    ensures var checked := AfterCheck(cfg, c, a.checkAt);
            var end := if a.reply.Stream? then AfterSuccess(checked) else AfterFailure(cfg, checked, a.doneAt);
            Drives(cfg, c, CallOf(true, a, k), end)
  {
    hide Admits, AfterCheck, AfterSuccess, AfterFailure;
    var effects := CallOf(true, a, k);
    var checked := AfterCheck(cfg, c, a.checkAt);
    var end := if a.reply.Stream? then AfterSuccess(checked) else AfterFailure(cfg, checked, a.doneAt);
    assert effects[1..][1..] == effects[2..] && effects[2..][1..] == [];
    assert Drives(cfg, end, [], end);
    assert Drives(cfg, checked, effects[2..], end);
    assert Drives(cfg, checked, effects[1..], end);
  }

  lemma PauseDrives(cfg: Config, c: Cells, k: nat, cap: Option<nat>, e: ProviderError)
    ensures Drives(cfg, c, PauseOf(k, cap, e), c)
  {
    var effects := PauseOf(k, cap, e);
    assert effects[1..][1..] == [];
    assert Drives(cfg, c, effects[1..], c);
  }

  lemma TryDrives(g: Guard, a: Attempt, cap: Option<nat>, k: nat)
    requires k <= 3
    ensures var t := Try([], Some(g), a, cap, k);
            t.guard.Some? && t.guard.value.cfg == g.cfg && Drives(g.cfg, g.cells, t.effects, t.guard.value.cells)
  {
    hide Drives, Delay, FailsFast;
    var cfg, c := g.cfg, g.cells;
    if !GuardAdmits(Some(g), a.checkAt) {
      TryRefused(Some(g), a, cap, k);
      RefusalDrives(cfg, c, a.checkAt);
    } else {
      TryCalled(Some(g), a, cap, k);
      CallDrives(cfg, c, a, k);
      if a.reply.Failed? && k < 3 {
        var end := AfterFailure(cfg, AfterCheck(cfg, c, a.checkAt), a.doneAt);
        PauseDrives(cfg, end, k, cap, a.reply.error);
        DrivesConcat(cfg, c, CallOf(true, a, k), end, PauseOf(k, cap, a.reply.error), end);
      }
      assert CallOf(true, a, k) + [] == CallOf(true, a, k);
    }
  }

  lemma RefusalDrives(cfg: Config, c: Cells, at: nat)
    requires !Admits(cfg, c, at)
    ensures Drives(cfg, c, [Checked(at, false)], AfterCheck(cfg, c, at))
  {
    assert [Checked(at, false)][1..] == [];
  }

  /** The breaker an invocation leaves behind is its log played back on the one it was given, and
      every check was answered as logged. */
  lemma {:induction false} InvocationDrives(g: Guard, env: Environment, cap: Option<nat>, k: nat, lastErr: string)
    ensures var r := Invoke(Some(g), env, cap, k, lastErr);
            r.guard.Some? && r.guard.value.cfg == g.cfg && Drives(g.cfg, g.cells, r.effects, r.guard.value.cells)
    decreases MAX_RETRIES + 1 - k
  {
    hide Retry, Invoke, Try;
    if k > MAX_RETRIES {
      RunPastEnd(Some(g), env, cap, k, lastErr);
    } else {
      EffectsStep(Some(g), env, cap, k, lastErr);
      TryDrives(g, env(k), cap, k);
      var t := Try([], Some(g), env(k), cap, k);
      if t.ending.None? {
        InvocationDrives(t.guard.value, env, cap, k + 1, t.error);
        var rest := Invoke(t.guard, env, cap, k + 1, t.error);
        DrivesConcat(g.cfg, g.cells, t.effects, t.guard.value.cells, rest.effects, rest.guard.value.cells);
      }
    }
  }

  // ---- Without a breaker

  /** A first failure worth another attempt leads to one ... */
  lemma TransientIsRetried(env: Environment, cap: Option<nat>)
    requires env(0).reply.Failed?
    requires var e := env(0).reply.error; e.RequestFailed? || (e.HttpError? && (e.status == 429 || e.status >= 500))
    ensures Calls(Invoke(None, env, cap, 0, "").effects) >= 2
  {
    var n, refused := InvocationTranscript(None, env, cap, 0, "");
    var rest := Story(false, env, cap, 1, n, refused);
    var first := CallOf(false, env(0), 0) + PauseOf(0, cap, env(0).reply.error);
    CountsConcat(first, rest);
    CountsConcat(CallOf(false, env(0), 0), PauseOf(0, cap, env(0).reply.error));
    CallCounts(env(0), 0);
    StoryCalls(env, cap, 1, n);
  }

  lemma CallCounts(a: Attempt, k: nat)
    ensures Calls(CallOf(false, a, k)) == 1
  {
    assert [Called(k)][1..] == [];
  }

  lemma StoryCalls(env: Environment, cap: Option<nat>, k: nat, n: nat)
    requires k <= n && forall j :: k <= j < n ==> env(j).reply.Failed?
    ensures Calls(Story(false, env, cap, k, n, false)) >= 1
  {
    CallCounts(env(k), k);
    if k < n {
      var pause := PauseOf(k, cap, env(k).reply.error);
      CountsConcat(CallOf(false, env(k), k), pause);
      CountsConcat(CallOf(false, env(k), k) + pause, Story(false, env, cap, k + 1, n, false));
    }
  }

  /** ... and any other but a missing key is final. */
  lemma OtherFailureIsFinal(env: Environment, cap: Option<nat>)
    requires env(0).reply.Failed? && !env(0).reply.error.MissingApiKey?
    requires var e := env(0).reply.error; !e.RequestFailed? && (e.HttpError? ==> e.status != 429 && e.status < 500)
    ensures var r := Invoke(None, env, cap, 0, "");
            r.outcome == StreamError(Reason(env(0).reply.error)) && Calls(r.effects) == 1
  {
    var n, refused := InvocationTranscript(None, env, cap, 0, "");
    CallCounts(env(0), 0);
  }
}
