/**
 * The application-level retry of transient LLM failures: classification, backoff with jitter,
 * and the per-call session that spends a total backoff budget.
 */
module TransientRetry {
  import opened Instants
  import opened Outcomes

  /** `LlmRetryConfig` with the bounds its settings enforce. */
  datatype RetryConfig = RetryConfig(
    maxAttempts: nat,
    baseBackoff: real,
    maxBackoff: real,
    maxRetryAfter: real,
    totalBudget: real
  ) {
    ghost predicate Valid() {
      && 1 <= maxAttempts && 0.0 < baseBackoff <= maxBackoff
      && 0.0 < maxRetryAfter && 0.0 < totalBudget
    }
  }

  datatype Kind = TimedOut | ConnectionLost | OtherError

  /** An exception as the classifier sees it; `retryAfter` is the header when it parses as a number. */
  datatype Failure = Failure(statusCode: Option<int>, kind: Kind, retryAfter: Option<real>)

  datatype Classification = Classification(retryable: bool, retryAfterSeconds: Option<real>)

  function ClassifyLlmFailure(f: Failure): Classification {
    match f.statusCode
    case Some(code) =>
      if code == 408 || code == 429 || 500 <= code <= 599 then
        Classification(true, if code == 429 then RetryAfterSeconds(f) else None)
      else
        Classification(false, None)
    case None => Classification(f.kind != OtherError, None)
  }

  function RetryAfterSeconds(f: Failure): Option<real> {
    match f.retryAfter
    case Some(seconds) => if seconds >= 0.0 then Some(seconds) else None
    case None => None
  }

  /** x * 2**n */
  function Doubled(x: real, n: nat): real {
    if n == 0 then x else 2.0 * Doubled(x, n - 1)
  }

  /** A random draw, clipped to [0, 1], adds up to a quarter. */
  function Jitter(base: real, draw: real): (j: real)
    ensures base >= 0.0 ==> 0.0 <= j <= base * 0.25
  {
    var u := Max(0.0, Min(1.0, draw));
    JitterRange(base, u);
    base * u * 0.25
  }

  lemma JitterRange(base: real, u: real)
    requires 0.0 <= u <= 1.0
    ensures base >= 0.0 ==> 0.0 <= base * u * 0.25 <= base * 0.25
  {
    if base >= 0.0 {
      assert base * u >= 0.0 && base * (1.0 - u) >= 0.0;
      assert base * u + base * (1.0 - u) == base;
    }
  }

  function DelayFor(cfg: RetryConfig, c: Classification, attempt: nat, draw: real): real
    requires attempt >= 1
  {
    match c.retryAfterSeconds
    case Some(seconds) => Min(seconds, cfg.maxRetryAfter)
    case None =>
      var base := Min(cfg.maxBackoff, Doubled(cfg.baseBackoff, attempt - 1));
      Min(cfg.maxBackoff, base + Jitter(base, draw))
  }

  /** The delay before the retry that follows a failed attempt, were there no limits. */
  function Delay(cfg: RetryConfig, f: Failure, attempt: nat, draw: real): real
    requires attempt >= 1
  {
    DelayFor(cfg, ClassifyLlmFailure(f), attempt, draw)
  }

  lemma {:induction false} DoubledPositive(x: real, n: nat)
    requires x > 0.0
    ensures Doubled(x, n) > 0.0
  {
    if n > 0 { DoubledPositive(x, n - 1); }
  }

  /** A backoff delay lies between the capped exponential and a quarter more. */
  lemma BackoffRange(cfg: RetryConfig, f: Failure, attempt: nat, draw: real)
    requires cfg.Valid() && attempt >= 1 && ClassifyLlmFailure(f).retryAfterSeconds.None?
    ensures var base := Min(cfg.maxBackoff, Doubled(cfg.baseBackoff, attempt - 1));
            0.0 < base <= Delay(cfg, f, attempt, draw) <= Min(cfg.maxBackoff, base * 1.25)
  {
    DoubledPositive(cfg.baseBackoff, attempt - 1);
  }

  lemma DelayRange(cfg: RetryConfig, f: Failure, attempt: nat, draw: real)
    requires cfg.Valid() && attempt >= 1
    ensures 0.0 <= Delay(cfg, f, attempt, draw) <= Max(cfg.maxBackoff, cfg.maxRetryAfter)
  {
    if ClassifyLlmFailure(f).retryAfterSeconds.None? {
      BackoffRange(cfg, f, attempt, draw);
    }
  }

  /** Without Retry-After, backoff never shrinks from one attempt to the next, whatever the jitter. */
  lemma DelaysNondecreasing(cfg: RetryConfig, f: Failure, g: Failure, attempt: nat, draw: real, draw': real)
    requires cfg.Valid() && attempt >= 1
    requires ClassifyLlmFailure(f).retryAfterSeconds.None? && ClassifyLlmFailure(g).retryAfterSeconds.None?
    ensures Delay(cfg, f, attempt, draw) <= Delay(cfg, g, attempt + 1, draw')
  {
    BackoffRange(cfg, f, attempt, draw);
    BackoffRange(cfg, g, attempt + 1, draw');
  }

  /**
   * The wait without Retry-After: the base backoff after the first attempt, doubled with each further
   * one, up to the maximum; the jitter adds a quarter of it at most, in proportion to the draw.
   */
  lemma BackoffDoubles(cfg: RetryConfig, f: Failure, attempt: nat, draw: real)
    requires cfg.Valid() && attempt >= 1
    requires f.statusCode != Some(429) || f.retryAfter.None? || f.retryAfter.value < 0.0
    ensures Delay(cfg, f, 1, 0.0) == cfg.baseBackoff
    ensures Delay(cfg, f, attempt + 1, 0.0) == Min(cfg.maxBackoff, 2.0 * Delay(cfg, f, attempt, 0.0))
    ensures var clipped := if draw <= 0.0 then 0.0 else if draw >= 1.0 then 1.0 else draw;
      var plain := Delay(cfg, f, attempt, 0.0);
      Delay(cfg, f, attempt, draw) == Min(cfg.maxBackoff, plain + plain * clipped / 4.0)
  {
    DoubledPositive(cfg.baseBackoff, attempt - 1);
  }

  /** After a 429 with a usable Retry-After the wait is that value, up to its own maximum; no other status uses it. */
  lemma RetryAfterHeeded(cfg: RetryConfig, f: Failure, g: Failure, attempt: nat, draw: real)
    requires cfg.Valid() && attempt >= 1
    ensures f.statusCode == Some(429) && f.retryAfter.Some? && f.retryAfter.value >= 0.0 ==>
      Delay(cfg, f, attempt, draw) ==
        if f.retryAfter.value <= cfg.maxRetryAfter then f.retryAfter.value else cfg.maxRetryAfter
    ensures f.statusCode != Some(429) && g.statusCode != Some(429) ==>
      Delay(cfg, f, attempt, draw) == Delay(cfg, g, attempt, draw)
  {
  }

  // ---------------------------------------------------------------- the whole call, as a specification

  datatype Outcome<T> = Returned(value: T) | Raised(failure: Failure)

  /** Total sleep once the first `attempts` attempts have all failed and been retried. */
  ghost function Slept<T(!new)>(cfg: RetryConfig, outcomes: seq<Outcome<T>>, draws: seq<real>, attempts: nat): real
    requires attempts <= |outcomes| == |draws|
  {
    if attempts == 0 then 0.0
    else
      Slept(cfg, outcomes, draws, attempts - 1)
      + match outcomes[attempts - 1]
        case Raised(f) => Delay(cfg, f, attempts, draws[attempts - 1])
        case Returned(_) => 0.0
  }

  /** Attempt k is the last: it returned, or its failure may not be retried. */
  ghost predicate Stops<T(!new)>(cfg: RetryConfig, outcomes: seq<Outcome<T>>, draws: seq<real>, k: nat)
    requires 1 <= k <= |outcomes| == |draws|
  {
    match outcomes[k - 1]
    case Returned(_) => true
    case Raised(f) =>
      || !ClassifyLlmFailure(f).retryable
      || k >= cfg.maxAttempts
      || Slept(cfg, outcomes, draws, k - 1) + Delay(cfg, f, k, draws[k - 1]) > cfg.totalBudget
  }

  ghost predicate LastAttempt<T(!new)>(cfg: RetryConfig, outcomes: seq<Outcome<T>>, draws: seq<real>, k: nat)
    requires |outcomes| == |draws|
  {
    1 <= k <= |outcomes| && Stops(cfg, outcomes, draws, k) && forall j | 1 <= j < k :: !Stops(cfg, outcomes, draws, j)
  }

  /** The last attempt is unique, and everything slept before it is within the budget. */
  lemma LastAttemptFacts<T(!new)>(cfg: RetryConfig, outcomes: seq<Outcome<T>>, draws: seq<real>, k: nat)
    requires cfg.Valid() && |outcomes| == |draws| == cfg.maxAttempts && LastAttempt(cfg, outcomes, draws, k)
    ensures 0.0 <= Slept(cfg, outcomes, draws, k - 1) <= cfg.totalBudget
    ensures forall j: nat | LastAttempt(cfg, outcomes, draws, j) :: j == k
    ensures cfg.maxAttempts == 1 ==> k == 1 && Slept(cfg, outcomes, draws, k - 1) == 0.0
  {
    SleptWithinBudget(cfg, outcomes, draws, k - 1);
    forall j: nat | LastAttempt(cfg, outcomes, draws, j) ensures j == k {
    }
  }

  lemma {:induction false} SleptWithinBudget<T(!new)>(cfg: RetryConfig, outcomes: seq<Outcome<T>>,
      draws: seq<real>, k: nat)
    requires cfg.Valid() && k <= |outcomes| == |draws|
    requires forall j | 1 <= j <= k :: !Stops(cfg, outcomes, draws, j)
    ensures 0.0 <= Slept(cfg, outcomes, draws, k) <= cfg.totalBudget
  {
    if k > 0 {
      SleptWithinBudget(cfg, outcomes, draws, k - 1);
      assert !Stops(cfg, outcomes, draws, k);
      DelayRange(cfg, outcomes[k - 1].failure, k, draws[k - 1]);
    }
  }

  // ---------------------------------------------------------------- the code

  class LlmTransientRetrySession {
    const config: RetryConfig
    var waitedSeconds: real

    ghost predicate Valid()
      reads this
    {
      config.Valid() && 0.0 <= waitedSeconds <= config.totalBudget
    }

    constructor (config: RetryConfig)
      requires config.Valid()
      ensures Valid() && this.config == config && waitedSeconds == 0.0
    {
      this.config := config;
      waitedSeconds := 0.0;
    }

    method RetryDelay(f: Failure, attempt: nat, draw: real) returns (delay: Option<real>)
      requires Valid() && attempt >= 1
      ensures delay.Some? <==>
        && ClassifyLlmFailure(f).retryable
        && attempt < config.maxAttempts
        && waitedSeconds + Delay(config, f, attempt, draw) <= config.totalBudget
      ensures delay.Some? ==> delay.value == Delay(config, f, attempt, draw)
    {
      var classification := ClassifyLlmFailure(f);
      if !classification.retryable { return None; }
      if attempt >= config.maxAttempts { return None; }
      var d := DelayFor(config, classification, attempt, draw);
      if waitedSeconds + d > config.totalBudget { return None; }
      delay := Some(d);
    }

    /** Sleeps when a retry is allowed; the session never sleeps past its budget, whatever it is told. */
    method RetryAfterFailure(f: Failure, attempt: nat, draw: real) returns (retry: bool)
      requires Valid() && attempt >= 1
      modifies this`waitedSeconds
      ensures Valid()
      ensures retry <==>
        && ClassifyLlmFailure(f).retryable
        && attempt < config.maxAttempts
        && old(waitedSeconds) + Delay(config, f, attempt, draw) <= config.totalBudget
      ensures waitedSeconds == old(waitedSeconds) + if retry then Delay(config, f, attempt, draw) else 0.0
    {
      var delay := RetryDelay(f, attempt, draw);
      DelayRange(config, f, attempt, draw);
      if delay.None? { return false; }
      waitedSeconds := waitedSeconds + delay.value;
      retry := true;
    }
  }

  /**
   * `execute`: outcomes[k - 1] is what the k-th permitted call of the operation would do, and
   * draws[k - 1] the jitter that would be drawn after it.  The operation runs up to its last
   * attempt and no further, and that attempt decides.
   */
  method Execute<T(!new)>(cfg: RetryConfig, outcomes: seq<Outcome<T>>, draws: seq<real>)
    returns (result: Outcome<T>, attempts: nat, slept: real)
    requires cfg.Valid() && |outcomes| == |draws| == cfg.maxAttempts
    ensures LastAttempt(cfg, outcomes, draws, attempts)
    ensures result == outcomes[attempts - 1]
    ensures slept == Slept(cfg, outcomes, draws, attempts - 1)
    ensures 1 <= attempts <= cfg.maxAttempts && 0.0 <= slept <= cfg.totalBudget
  {
    var session := new LlmTransientRetrySession(cfg);
    attempts := 1;
    while attempts <= cfg.maxAttempts
      invariant 1 <= attempts <= cfg.maxAttempts
      invariant session.Valid() && session.config == cfg && fresh(session)
      invariant forall j | 1 <= j < attempts :: !Stops(cfg, outcomes, draws, j)
      invariant session.waitedSeconds == Slept(cfg, outcomes, draws, attempts - 1)
    {
      result := outcomes[attempts - 1];
      if result.Returned? {
        return result, attempts, session.waitedSeconds;
      }
      var retry := session.RetryAfterFailure(result.failure, attempts, draws[attempts - 1]);
      if !retry {
        return result, attempts, session.waitedSeconds;
      }
      attempts := attempts + 1;
    }
    assert false;  // the error raised after the loop is unreachable
  }

  /**
   * An attempt of the call is followed by another one if and only if it failed with 408, 429 or
   * 500-599, or without status by a timeout or a lost connection; attempts are left; and the wait still
   * fits the budget.
   */
  lemma RetriedExactly<T(!new)>(cfg: RetryConfig, outcomes: seq<Outcome<T>>, draws: seq<real>, k: nat, j: nat)
    requires cfg.Valid() && |outcomes| == |draws| && LastAttempt(cfg, outcomes, draws, k) && 1 <= j <= k
    ensures j < k <==>
      && outcomes[j - 1].Raised?
      && var f := outcomes[j - 1].failure;
         && (match f.statusCode
             case Some(code) => code == 408 || code == 429 || 500 <= code <= 599
             case None => f.kind == TimedOut || f.kind == ConnectionLost)
         && j < cfg.maxAttempts
         && Slept(cfg, outcomes, draws, j - 1) + Delay(cfg, f, j, draws[j - 1]) <= cfg.totalBudget
  {
    assert j < k ==> !Stops(cfg, outcomes, draws, j);
    hide Slept, DelayFor;
  }

  /** A failure with any other status, or an unknown one, ends the call no later than at that attempt. */
  lemma NonRetryableStops<T(!new)>(cfg: RetryConfig, outcomes: seq<Outcome<T>>, draws: seq<real>, k: nat, j: nat)
    requires cfg.Valid() && |outcomes| == |draws| && LastAttempt(cfg, outcomes, draws, k)
    requires 1 <= j <= |outcomes| && outcomes[j - 1].Raised?
    requires match outcomes[j - 1].failure.statusCode
             case Some(code) => code != 408 && code != 429 && !(500 <= code <= 599)
             case None => outcomes[j - 1].failure.kind == OtherError
    ensures k <= j
  {
    if j < k { RetriedExactly(cfg, outcomes, draws, k, j); }
  }
}
