/** Opening a provider stream with retries and exponential back-off behind an optional breaker.
    What the environment does (clock readings and the provider's replies) is a function of the
    attempt number; what the loop does to it is the list of effects. */
module StreamRetry {
  import opened Wrappers
  import opened CircuitBreaker

  const MAX_RETRIES: nat := 3
  const BACKOFF_BASE_SECS: nat := 2

  datatype ProviderError =
    | MissingApiKey
    | HttpError(status: nat, detail: string)
    | RequestFailed(detail: string)
    | OtherError(detail: string)

  function ErrorText(e: ProviderError): string {
    match e
    case MissingApiKey => "Missing API key"
    case HttpError(_, detail) => detail
    case RequestFailed(detail) => "Request failed: " + detail
    case OtherError(detail) => detail
  }

  /** The loop's own notion: HTTP 429, HTTP 5xx and above, or a failed request. */
  predicate IsRetryable(e: ProviderError) {
    || (e.HttpError? && (e.status == 429 || e.status >= 500))
    || e.RequestFailed?
  }

  datatype Reply = Stream | Failed(error: ProviderError)

  /** What the environment does on one attempt: the clock at the check, the provider's reply, and
      the clock when it is recorded. */
  datatype Attempt = Attempt(checkAt: nat, reply: Reply, doneAt: nat)

  type Environment = nat -> Attempt

  /** The first three errors are one error type in the original, told apart by their text. */
  datatype Outcome =
    | Streaming
    | BreakerRefused
    | ApiKeyMissing
    | StreamError(message: string)
    | RetriesExhausted(attempts: nat, lastError: string)

  datatype Effect =
    | Checked(at: nat, admitted: bool)
    | Called(attempt: nat)
    | RecordedSuccess
    | RecordedFailure(at: nat)
    | Notified(attempt: nat, maxRetries: nat, delaySecs: nat, reason: string)
    | Slept(secs: nat)

  function Pow2(n: nat): nat {
    if n == 0 then 1 else BACKOFF_BASE_SECS * Pow2(n - 1)
  }

  function Delay(attempt: nat, maxDelay: Option<nat>): nat {
    var delay := Pow2(attempt + 1);
    if maxDelay.Some? && maxDelay.value < delay then maxDelay.value else delay
  }

  /** A breaker's configuration and cells. */
  datatype Guard = Guard(cfg: Config, cells: Cells)

  datatype Retried = Retried(outcome: Outcome, effects: seq<Effect>, guard: Option<Guard>)

  function AfterEvent(guard: Option<Guard>, e: Event): Option<Guard> {
    if guard.Some? then Some(guard.value.(cells := After(guard.value.cfg, guard.value.cells, e))) else None
  }

  /** An effect that only happens when there is a breaker. */
  function Note(log: seq<Effect>, guard: Option<Guard>, effect: Effect): seq<Effect> {
    if guard.Some? then log + [effect] else log
  }

  /** A failure that ends the loop at once. */
  function FailsFast(e: ProviderError, attempt: nat): Option<Outcome> {
    if e.MissingApiKey? then Some(ApiKeyMissing)
    else if !IsRetryable(e) && attempt == 0 then Some(StreamError(ErrorText(e)))
    else None
  }

  /** What one attempt settles: the final outcome, or the error it failed with. */
  datatype Tried = Tried(ending: Option<Outcome>, error: string, effects: seq<Effect>, guard: Option<Guard>)

  function Try(log: seq<Effect>, guard: Option<Guard>, a: Attempt, maxDelay: Option<nat>, attempt: nat): Tried {
    var checked := AfterEvent(guard, Check(a.checkAt));
    if !GuardAdmits(guard, a.checkAt)
    then Tried(Some(BreakerRefused), "", Note(log, guard, Checked(a.checkAt, false)), checked)
    else
      var called := Note(log, guard, Checked(a.checkAt, true)) + [Called(attempt)];
      match a.reply
      case Stream => Tried(Some(Streaming), "", Note(called, guard, RecordedSuccess), AfterEvent(checked, Success))
      case Failed(e) =>
        var failed := Note(called, guard, RecordedFailure(a.doneAt));
        var guard' := AfterEvent(checked, Failure(a.doneAt));
        if FailsFast(e, attempt).Some? then Tried(FailsFast(e, attempt), "", failed, guard')
        else Tried(None, ErrorText(e), Pause(failed, attempt, maxDelay, ErrorText(e)), guard')
  }

  /** The loop from one attempt on, given the effects so far and the last error. */
  function Retry(log: seq<Effect>, guard: Option<Guard>, env: Environment, maxDelay: Option<nat>, attempt: nat,
      lastErr: string): Retried
    decreases MAX_RETRIES + 1 - attempt
  {
    if attempt > MAX_RETRIES then Retried(RetriesExhausted(MAX_RETRIES, lastErr), log, guard)
    else
      var t := Try(log, guard, env(attempt), maxDelay, attempt);
      if t.ending.Some? then Retried(t.ending.value, t.effects, t.guard)
      else Retry(t.effects, t.guard, env, maxDelay, attempt + 1, t.error)
  }

  function Pause(log: seq<Effect>, attempt: nat, maxDelay: Option<nat>, reason: string): seq<Effect> {
    if attempt < MAX_RETRIES
    then log + [Notified(attempt + 1, MAX_RETRIES, Delay(attempt, maxDelay), reason)]
        + [Slept(Delay(attempt, maxDelay))]
    else log
  }

  function GuardOf(breaker: DefaultCircuitBreaker?): Option<Guard>
    reads breaker
  {
    if breaker == null then None else Some(Guard(breaker.cfg, breaker.View()))
  }

  lemma RetryStep(log: seq<Effect>, guard: Option<Guard>, env: Environment, maxDelay: Option<nat>, attempt: nat,
      lastErr: string)
    ensures Retry(log, guard, env, maxDelay, attempt, lastErr)
            == if attempt > MAX_RETRIES then Retried(RetriesExhausted(MAX_RETRIES, lastErr), log, guard)
               else
                 var t := Try(log, guard, env(attempt), maxDelay, attempt);
                 if t.ending.Some? then Retried(t.ending.value, t.effects, t.guard)
                 else Retry(t.effects, t.guard, env, maxDelay, attempt + 1, t.error)
  {
  }

  predicate GuardAdmits(guard: Option<Guard>, at: nat) {
    guard.Some? ==> Admits(guard.value.cfg, guard.value.cells, at)
  }

  /** The optional breaker's part before a call ... */
  method Consult(breaker: DefaultCircuitBreaker?, at: nat, log: seq<Effect>) returns (admitted: bool, log': seq<Effect>)
    modifies breaker
    ensures GuardOf(breaker) == AfterEvent(old(GuardOf(breaker)), Check(at))
    ensures admitted == GuardAdmits(old(GuardOf(breaker)), at)
    ensures log' == Note(log, old(GuardOf(breaker)), Checked(at, admitted))
  {
    admitted, log' := true, log;
    if breaker != null {
      admitted := breaker.Check(at);
      log' := log + [Checked(at, admitted)];
    }
  }

  /** ... and after it. */
  method Record(breaker: DefaultCircuitBreaker?, a: Attempt, log: seq<Effect>) returns (log': seq<Effect>)
    modifies breaker
    ensures GuardOf(breaker) == AfterEvent(old(GuardOf(breaker)),
        if a.reply.Stream? then Success else Failure(a.doneAt))
    ensures log' == Note(log, old(GuardOf(breaker)),
        if a.reply.Stream? then RecordedSuccess else RecordedFailure(a.doneAt))
  {
    log' := log;
    if breaker != null {
      if a.reply.Stream? {
        breaker.RecordSuccess();
        log' := log + [RecordedSuccess];
      } else {
        breaker.RecordFailure(a.doneAt);
        log' := log + [RecordedFailure(a.doneAt)];
      }
    }
  }

  method StreamWithRetry(env: Environment, maxDelay: Option<nat>, breaker: DefaultCircuitBreaker?)
    returns (outcome: Outcome, effects: seq<Effect>)
    modifies breaker
    ensures Retried(outcome, effects, GuardOf(breaker)) == Retry([], old(GuardOf(breaker)), env, maxDelay, 0, "")
  {
    hide Retry, GuardOf, GuardAdmits, Delay, IsRetryable;
    ghost var result := Retry([], GuardOf(breaker), env, maxDelay, 0, "");
    var lastErr := "";
    effects := [];
    var attempt := 0;
    while attempt <= MAX_RETRIES
      invariant attempt <= MAX_RETRIES + 1
      invariant result == Retry(effects, GuardOf(breaker), env, maxDelay, attempt, lastErr)
    {
      RetryStep(effects, GuardOf(breaker), env, maxDelay, attempt, lastErr);
      var admitted;
      admitted, effects := Consult(breaker, env(attempt).checkAt, effects);
      if !admitted {
        return BreakerRefused, effects;
      }
      effects := effects + [Called(attempt)];
      effects := Record(breaker, env(attempt), effects);
      if env(attempt).reply.Stream? {
        return Streaming, effects;
      }
      var e := env(attempt).reply.error;
      var msg := ErrorText(e);
      if e.MissingApiKey? {
        return ApiKeyMissing, effects;
      }
      if !IsRetryable(e) && attempt == 0 {
        return StreamError(msg), effects;
      }
      lastErr := msg;
      if attempt < MAX_RETRIES {
        var delay := Delay(attempt, maxDelay);
        effects := effects + [Notified(attempt + 1, MAX_RETRIES, delay, msg)];
        effects := effects + [Slept(delay)];
      }
      attempt := attempt + 1;
    }
    RetryStep(effects, GuardOf(breaker), env, maxDelay, attempt, lastErr);
    outcome := RetriesExhausted(MAX_RETRIES, lastErr);
  }
}
