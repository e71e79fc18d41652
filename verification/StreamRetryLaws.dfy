/** Laws of the retry loop: what one invocation does, and how often a failing upstream is called
    by any number of invocations that share a breaker. */
module StreamRetryLaws {
  import opened Wrappers
  import opened Sequences
  import opened CircuitBreaker
  import opened StreamRetry

  // ---- The effects of one invocation, attempt by attempt

  ghost function Invoke(guard: Option<Guard>, env: Environment, maxDelay: Option<nat>, attempt: nat,
      lastErr: string): Retried {
    Retry([], guard, env, maxDelay, attempt, lastErr)
  }

  lemma TryLog(log: seq<Effect>, guard: Option<Guard>, a: Attempt, maxDelay: Option<nat>, attempt: nat)
    ensures var t := Try([], guard, a, maxDelay, attempt);
            Try(log, guard, a, maxDelay, attempt) == t.(effects := log + t.effects)
  {
    hide Delay;
    var admitted := GuardAdmits(guard, a.checkAt);
    NoteLog(log, [], guard, Checked(a.checkAt, admitted));
    if admitted {
      var checked := Note([], guard, Checked(a.checkAt, true));
      ConcatAssociative(log, checked, [Called(attempt)]);
      var called := checked + [Called(attempt)];
      NoteLog(log, called, guard, RecordedSuccess);
      NoteLog(log, called, guard, RecordedFailure(a.doneAt));
      var failed := Note(called, guard, RecordedFailure(a.doneAt));
      if a.reply.Failed? {
        PauseLog(log, failed, attempt, maxDelay, ErrorText(a.reply.error));
      }
    }
  }

  lemma NoteLog(log: seq<Effect>, rest: seq<Effect>, guard: Option<Guard>, e: Effect)
    ensures Note(log + rest, guard, e) == log + Note(rest, guard, e)
    ensures log + [] == log
  {
  }

  lemma PauseLog(log: seq<Effect>, rest: seq<Effect>, attempt: nat, maxDelay: Option<nat>, reason: string)
    ensures Pause(log + rest, attempt, maxDelay, reason) == log + Pause(rest, attempt, maxDelay, reason)
  {
  }

  lemma {:induction false} RetryLog(log: seq<Effect>, guard: Option<Guard>, env: Environment, maxDelay: Option<nat>,
      attempt: nat, lastErr: string)
    ensures var r := Retry([], guard, env, maxDelay, attempt, lastErr);
            Retry(log, guard, env, maxDelay, attempt, lastErr) == r.(effects := log + r.effects)
    decreases MAX_RETRIES + 1 - attempt
  {
    hide Try, Retry;
    RetryStep(log, guard, env, maxDelay, attempt, lastErr);
    RetryStep([], guard, env, maxDelay, attempt, lastErr);
    if attempt <= MAX_RETRIES {
      TryLog(log, guard, env(attempt), maxDelay, attempt);
      var t := Try([], guard, env(attempt), maxDelay, attempt);
      if t.ending.None? {
        RetryLog(log + t.effects, t.guard, env, maxDelay, attempt + 1, t.error);
        RetryLog(t.effects, t.guard, env, maxDelay, attempt + 1, t.error);
        var rest := Retry([], t.guard, env, maxDelay, attempt + 1, t.error).effects;
        ConcatAssociative(log, t.effects, rest);
      }
    } else {
      assert log + [] == log;
    }
  }

  /** The effects of the loop from one attempt on are those of the attempt and of the rest. */
  lemma EffectsStep(guard: Option<Guard>, env: Environment, maxDelay: Option<nat>, attempt: nat, lastErr: string)
    requires attempt <= MAX_RETRIES
    ensures var t := Try([], guard, env(attempt), maxDelay, attempt);
            var r := Invoke(guard, env, maxDelay, attempt, lastErr);
            var rest := Invoke(t.guard, env, maxDelay, attempt + 1, t.error);
            if t.ending.Some? then r == Retried(t.ending.value, t.effects, t.guard)
            else r == rest.(effects := t.effects + rest.effects)
  {
    hide Try, Retry;
    RetryStep([], guard, env, maxDelay, attempt, lastErr);
    var t := Try([], guard, env(attempt), maxDelay, attempt);
    if t.ending.None? {
      RetryLog(t.effects, t.guard, env, maxDelay, attempt + 1, t.error);
    }
  }

  // ---- Calls and sleeps

  ghost function Calls(effects: seq<Effect>): nat {
    if effects == [] then 0 else (if effects[0].Called? then 1 else 0) + Calls(effects[1..])
  }

  ghost function Sleep(effects: seq<Effect>): nat {
    if effects == [] then 0 else (if effects[0].Slept? then effects[0].secs else 0) + Sleep(effects[1..])
  }

  lemma {:induction false} CountsConcat(a: seq<Effect>, b: seq<Effect>)
    ensures Calls(a + b) == Calls(a) + Calls(b) && Sleep(a + b) == Sleep(a) + Sleep(b)
  {
    if a == [] {
      assert a + b == b;
    } else {
      assert (a + b)[1..] == a[1..] + b;
      CountsConcat(a[1..], b);
    }
  }

  lemma CountOne(log: seq<Effect>, e: Effect)
    ensures Calls(log + [e]) == Calls(log) + (if e.Called? then 1 else 0)
    ensures Sleep(log + [e]) == Sleep(log) + (if e.Slept? then e.secs else 0)
  {
    CountsConcat(log, [e]);
    assert [e][1..] == [];
  }

  /** One attempt calls the provider exactly when the breaker admits it, and sleeps only when
      another attempt follows. */
  lemma TryCounts(guard: Option<Guard>, a: Attempt, maxDelay: Option<nat>, attempt: nat)
    ensures var t := Try([], guard, a, maxDelay, attempt);
            && Calls(t.effects) == (if GuardAdmits(guard, a.checkAt) then 1 else 0)
            && Sleep(t.effects) == (if t.ending.None? && attempt < MAX_RETRIES then Delay(attempt, maxDelay) else 0)
  {
    var admitted := GuardAdmits(guard, a.checkAt);
    CountOne([], Checked(a.checkAt, admitted));
    if admitted {
      var checked := Note([], guard, Checked(a.checkAt, true));
      CountOne(checked, Called(attempt));
      var called := checked + [Called(attempt)];
      CountOne(called, RecordedSuccess);
      CountOne(called, RecordedFailure(a.doneAt));
      if a.reply.Failed? {
        var failed := Note(called, guard, RecordedFailure(a.doneAt));
        var notice := Notified(attempt + 1, MAX_RETRIES, Delay(attempt, maxDelay), ErrorText(a.reply.error));
        CountOne(failed, notice);
        CountOne(failed + [notice], Slept(Delay(attempt, maxDelay)));
      }
    }
  }

  /** Worth another attempt from the start: a failed request, a rate limit or a server error. */
  ghost predicate Transient(e: ProviderError) {
    e.RequestFailed? || (e.HttpError? && (e.status == 429 || e.status >= 500))
  }

  /** The reply to attempt `k` ends the loop. */
  ghost predicate IsLast(a: Attempt, k: nat) {
    match a.reply
    case Stream => true
    case Failed(e) => e.MissingApiKey? || (k == 0 && !Transient(e)) || k == 3
  }

  lemma FailsFastMeaning(e: ProviderError, k: nat)
    ensures FailsFast(e, k)
            == if e.MissingApiKey? then Some(ApiKeyMissing)
               else if k == 0 && !Transient(e) then Some(StreamError(ErrorText(e)))
               else None
  {
  }

  /** The first attempt whose reply ends the loop. */
  ghost function FirstEnd(env: Environment, attempt: nat): (r: nat)
    requires attempt <= MAX_RETRIES
    ensures attempt <= r <= MAX_RETRIES && IsLast(env(r), r)
    ensures forall k :: attempt <= k < r ==> !IsLast(env(k), k)
    decreases MAX_RETRIES - attempt
  {
    if IsLast(env(attempt), attempt) then attempt else FirstEnd(env, attempt + 1)
  }

  ghost function MaxSleep(attempt: nat): nat
    decreases MAX_RETRIES - attempt
  {
    if attempt >= MAX_RETRIES then 0 else Pow2(attempt + 1) + MaxSleep(attempt + 1)
  }

  lemma {:induction false} CallsBound(guard: Option<Guard>, env: Environment, maxDelay: Option<nat>, attempt: nat,
      lastErr: string)
    requires attempt <= MAX_RETRIES
    ensures var r := Invoke(guard, env, maxDelay, attempt, lastErr);
            && Calls(r.effects) <= FirstEnd(env, attempt) + 1 - attempt
            && (guard.None? ==> Calls(r.effects) == FirstEnd(env, attempt) + 1 - attempt)
    decreases MAX_RETRIES - attempt
  {
    hide Retry, Invoke, Try, Sleep, Delay;
    EffectsStep(guard, env, maxDelay, attempt, lastErr);
    TryCounts(guard, env(attempt), maxDelay, attempt);
    TryEnding(guard, env(attempt), maxDelay, attempt);
    if env(attempt).reply.Failed? {
      FailsFastMeaning(env(attempt).reply.error, attempt);
    }
    var t := Try([], guard, env(attempt), maxDelay, attempt);
    if t.ending.None? {
      CountsConcat(t.effects, Invoke(t.guard, env, maxDelay, attempt + 1, t.error).effects);
      if attempt < MAX_RETRIES {
        CallsBound(t.guard, env, maxDelay, attempt + 1, t.error);
      } else {
        RunPastEnd(t.guard, env, maxDelay, attempt + 1, t.error);
      }
    }
  }

  lemma {:induction false} SleepBound(guard: Option<Guard>, env: Environment, maxDelay: Option<nat>, attempt: nat,
      lastErr: string)
    requires attempt <= MAX_RETRIES
    ensures Sleep(Invoke(guard, env, maxDelay, attempt, lastErr).effects) <= MaxSleep(attempt)
    decreases MAX_RETRIES - attempt
  {
    hide Retry, Invoke, Try, Calls;
    EffectsStep(guard, env, maxDelay, attempt, lastErr);
    TryCounts(guard, env(attempt), maxDelay, attempt);
    var t := Try([], guard, env(attempt), maxDelay, attempt);
    if t.ending.None? {
      CountsConcat(t.effects, Invoke(t.guard, env, maxDelay, attempt + 1, t.error).effects);
      if attempt < MAX_RETRIES {
        SleepBound(t.guard, env, maxDelay, attempt + 1, t.error);
      } else {
        RunPastEnd(t.guard, env, maxDelay, attempt + 1, t.error);
      }
    }
  }

  lemma TryEnding(guard: Option<Guard>, a: Attempt, maxDelay: Option<nat>, attempt: nat)
    ensures var t := Try([], guard, a, maxDelay, attempt);
            && (t.guard.None? <==> guard.None?)
            && (t.ending.Some?
                <==> !GuardAdmits(guard, a.checkAt) || a.reply.Stream? || FailsFast(a.reply.error, attempt).Some?)
            && (t.ending == Some(Streaming) <==> GuardAdmits(guard, a.checkAt) && a.reply.Stream?)
  {
  }

  /** Without a breaker the invocation streams exactly when the first reply that ends it does. */
  lemma {:induction false} StreamsExactly(env: Environment, maxDelay: Option<nat>, attempt: nat, lastErr: string)
    requires attempt <= MAX_RETRIES
    ensures Invoke(None, env, maxDelay, attempt, lastErr).outcome.Streaming?
        <==> env(FirstEnd(env, attempt)).reply.Stream?
    decreases MAX_RETRIES - attempt
  {
    hide Retry, Invoke, Try;
    EffectsStep(None, env, maxDelay, attempt, lastErr);
    TryEnding(None, env(attempt), maxDelay, attempt);
    if env(attempt).reply.Failed? {
      FailsFastMeaning(env(attempt).reply.error, attempt);
    }
    var t := Try([], None, env(attempt), maxDelay, attempt);
    if t.ending.None? {
      if attempt < MAX_RETRIES {
        StreamsExactly(env, maxDelay, attempt + 1, t.error);
      } else {
        RunPastEnd(t.guard, env, maxDelay, attempt + 1, t.error);
      }
    }
  }

  lemma RunPastEnd(guard: Option<Guard>, env: Environment, maxDelay: Option<nat>, attempt: nat, lastErr: string)
    requires attempt > MAX_RETRIES
    ensures Invoke(guard, env, maxDelay, attempt, lastErr) == Retried(RetriesExhausted(MAX_RETRIES, lastErr), [], guard)
  {
  }

  /** One invocation makes at most four provider calls and sleeps at most 2 + 4 + 8 seconds.
      Without a breaker it stops exactly at the first reply that ends the loop. */
  lemma InvocationBounds(guard: Option<Guard>, env: Environment, maxDelay: Option<nat>)
    ensures var r := Invoke(guard, env, maxDelay, 0, "");
            && Calls(r.effects) <= 4 && Sleep(r.effects) <= 14
            && (guard.None? ==> Calls(r.effects) == FirstEnd(env, 0) + 1)
            && (guard.None? ==> (r.outcome.Streaming? <==> env(FirstEnd(env, 0)).reply.Stream?))
  {
    hide Retry, Invoke, FirstEnd;
    CallsBound(guard, env, maxDelay, 0, "");
    SleepBound(guard, env, maxDelay, 0, "");
    StreamsExactly(env, maxDelay, 0, "");
    assert MaxSleep(0) == Pow2(1) + (Pow2(2) + (Pow2(3) + MaxSleep(3)));
    assert Pow2(1) == 2 && Pow2(2) == 4 && Pow2(3) == 8;
  }

  // ---- Every call is checked before and recorded after

  ghost predicate IsRecord(e: Effect) {
    e.RecordedSuccess? || e.RecordedFailure?
  }

  /** The effect at `i` has the neighbours it must have. */
  ghost predicate InPlace(e: seq<Effect>, i: nat)
    requires i < |e|
  {
    && (e[i].Called? ==> 0 < i && e[i - 1].Checked? && e[i - 1].admitted && i + 1 < |e| && IsRecord(e[i + 1]))
    && (IsRecord(e[i]) ==> 0 < i && e[i - 1].Called?)
    && (e[i].Checked? ==> if e[i].admitted then i + 1 < |e| && e[i + 1].Called? else i + 1 == |e|)
  }

  ghost predicate Disciplined(e: seq<Effect>) {
    forall i: nat :: i < |e| ==> InPlace(e, i)
  }

  ghost predicate StartsAndEnds(e: seq<Effect>, last: bool) {
    e != [] ==>
      && e[0].Checked?
      && (last || IsRecord(e[|e| - 1]) || e[|e| - 1].Slept?)
  }

  lemma DisciplinedConcat(a: seq<Effect>, b: seq<Effect>)
    requires Disciplined(a) && Disciplined(b) && StartsAndEnds(a, false) && StartsAndEnds(b, true)
    ensures Disciplined(a + b) && StartsAndEnds(a + b, true)
  {
    var e := a + b;
    forall i: nat | i < |e|
      ensures InPlace(e, i)
    {
      if i < |a| {
        assert InPlace(a, i);
        assert e[i] == a[i] && (i > 0 ==> e[i - 1] == a[i - 1]) && (i + 1 < |a| ==> e[i + 1] == a[i + 1]);
      } else {
        var k := i - |a|;
        assert InPlace(b, k);
        assert e[i] == b[k] && (k > 0 ==> e[i - 1] == b[k - 1]) && (k + 1 < |b| ==> e[i + 1] == b[k + 1]);
      }
    }
  }

  lemma CallDisciplined(check: Effect, call: Effect, record: Effect)
    requires check.Checked? && check.admitted && call.Called? && IsRecord(record)
    ensures Disciplined([check, call, record]) && StartsAndEnds([check, call, record], false)
  {
    var e := [check, call, record];
    assert InPlace(e, 0) && InPlace(e, 1) && InPlace(e, 2);
  }

  lemma PauseDisciplined(check: Effect, call: Effect, record: Effect, notice: Effect, sleep: Effect)
    requires check.Checked? && check.admitted && call.Called? && IsRecord(record) && notice.Notified? && sleep.Slept?
    ensures Disciplined([check, call, record, notice, sleep])
        && StartsAndEnds([check, call, record, notice, sleep], false)
  {
    var e := [check, call, record, notice, sleep];
    assert InPlace(e, 0) && InPlace(e, 1) && InPlace(e, 2) && InPlace(e, 3) && InPlace(e, 4);
  }

  lemma TryDisciplined(g: Guard, a: Attempt, maxDelay: Option<nat>, attempt: nat)
    ensures var t := Try([], Some(g), a, maxDelay, attempt);
            && Disciplined(t.effects) && StartsAndEnds(t.effects, t.ending.Some?)
  {
    hide Disciplined, StartsAndEnds, Delay;
    var t := Try([], Some(g), a, maxDelay, attempt);
    var check := Checked(a.checkAt, true);
    if !GuardAdmits(Some(g), a.checkAt) {
      RefusalDisciplined(a.checkAt);
    } else if a.reply.Stream? {
      CallDisciplined(check, Called(attempt), RecordedSuccess);
      assert t.effects == [check, Called(attempt), RecordedSuccess];
      WeakenEnd(t.effects);
    } else if t.ending.Some? || attempt >= MAX_RETRIES {
      CallDisciplined(check, Called(attempt), RecordedFailure(a.doneAt));
      assert t.effects == [check, Called(attempt), RecordedFailure(a.doneAt)];
      WeakenEnd(t.effects);
    } else {
      var notice := Notified(attempt + 1, MAX_RETRIES, Delay(attempt, maxDelay), t.error);
      PauseDisciplined(check, Called(attempt), RecordedFailure(a.doneAt), notice, Slept(Delay(attempt, maxDelay)));
      assert t.effects == [check, Called(attempt), RecordedFailure(a.doneAt), notice, Slept(Delay(attempt, maxDelay))];
    }
  }

  lemma RefusalDisciplined(at: nat)
    ensures [] + [Checked(at, false)] == [Checked(at, false)]
    ensures Disciplined([Checked(at, false)]) && StartsAndEnds([Checked(at, false)], true)
  {
    assert InPlace([Checked(at, false)], 0);
  }

  lemma WeakenEnd(e: seq<Effect>)
    requires StartsAndEnds(e, false)
    ensures StartsAndEnds(e, true)
  {
  }

  /** Behind a breaker every provider call directly follows an admitted check and is directly
      followed by exactly one record; a refused check ends the invocation and records nothing. */
  lemma {:induction false} InvocationDisciplined(g: Guard, env: Environment, maxDelay: Option<nat>, attempt: nat,
      lastErr: string)
    ensures var e := Invoke(Some(g), env, maxDelay, attempt, lastErr).effects;
            Disciplined(e) && StartsAndEnds(e, true)
    decreases MAX_RETRIES + 1 - attempt
  {
    hide Retry, Invoke, Try, Disciplined, StartsAndEnds;
    if attempt > MAX_RETRIES {
      RunPastEnd(Some(g), env, maxDelay, attempt, lastErr);
      NothingDisciplined();
    } else {
      EffectsStep(Some(g), env, maxDelay, attempt, lastErr);
      TryDisciplined(g, env(attempt), maxDelay, attempt);
      TryEnding(Some(g), env(attempt), maxDelay, attempt);
      var t := Try([], Some(g), env(attempt), maxDelay, attempt);
      if t.ending.None? {
        InvocationDisciplined(t.guard.value, env, maxDelay, attempt + 1, t.error);
        DisciplinedConcat(t.effects, Invoke(t.guard, env, maxDelay, attempt + 1, t.error).effects);
      }
    }
  }

  lemma NothingDisciplined()
    ensures Disciplined([]) && StartsAndEnds([], true)
  {
  }
}
