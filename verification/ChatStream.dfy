/**
 * The streaming chat adapter: retry until the first activity of one provider attempt, then
 * pass that attempt's chunks through.  A provider attempt is a script of timed responses.
 *
 * The accounted clock runs while the adapter waits for a provider response or sleeps between
 * attempts.  It does not run while the governor is waited for or a stream is closed.
 */
module ChatStream {
  import opened Outcomes
  import opened TransientRetry

  /** `active`: the chunk has text or reasoning that is not blank. */
  datatype Chunk = Chunk(content: string, active: bool)

  /** A response that comes `wait` seconds after it is asked for. */
  datatype Timed = Timed(wait: real, chunk: Chunk)

  datatype End =
    | Closed(wait: real)
    | Broken(wait: real, failure: Failure)
    | Silent                                 // the provider never answers again

  datatype Attempt = Attempt(responses: seq<Timed>, end: End) {
    ghost predicate Valid() {
      && (forall i | 0 <= i < |responses| :: responses[i].wait >= 0.0)
      && (end.Closed? || end.Broken? ==> end.wait >= 0.0)
    }

    function Chunks(): (cs: seq<Chunk>)
    {
      seq(|responses|, i requires 0 <= i < |responses| => responses[i].chunk)
    }

    /** When response i arrives, counted from the start of the attempt. */
    ghost function Arrival(i: nat): real
      requires i <= |responses|
    {
      if i == 0 then 0.0 else Arrival(i - 1) + responses[i - 1].wait
    }
  }

  const TimeoutFailure := Failure(None, TimedOut, None)
  const EmptyResponseFailure := Failure(None, OtherError, None)

  /** The first activity: the index of its chunk, or why there is none; and the time it took. */
  datatype Activity = Activity(outcome: Outcome<nat>, elapsed: real)

  /** `_first_activity_chunk` from response i on, `elapsed` seconds into the attempt. */
  ghost function ActivityFrom(a: Attempt, timeout: real, i: nat, elapsed: real): Activity
    requires i <= |a.responses|
    decreases |a.responses| - i
  {
    if timeout - elapsed <= 0.0 then Activity(Raised(TimeoutFailure), elapsed)
    else if i < |a.responses| then
      var r := a.responses[i];
      if r.wait > timeout - elapsed then Activity(Raised(TimeoutFailure), timeout)
      else if r.chunk.active then Activity(Returned(i), elapsed + r.wait)
      else ActivityFrom(a, timeout, i + 1, elapsed + r.wait)
    else if a.end.Silent? || a.end.wait > timeout - elapsed then Activity(Raised(TimeoutFailure), timeout)
    else if a.end.Closed? then Activity(Raised(EmptyResponseFailure), elapsed + a.end.wait)
    else Activity(Raised(a.end.failure), elapsed + a.end.wait)
  }

  ghost function FirstActivity(a: Attempt, timeout: real): Activity {
    ActivityFrom(a, timeout, 0, 0.0)
  }

  /** Response k is the first active one and arrives in time. */
  ghost predicate ActiveInTime(a: Attempt, timeout: real, k: nat) {
    && k < |a.responses| && a.responses[k].chunk.active
    && (forall j | 0 <= j < k :: !a.responses[j].chunk.active)
    && a.Arrival(k) < timeout && a.Arrival(k + 1) <= timeout
  }

  lemma {:induction false} ArrivalMonotone(a: Attempt, i: nat, j: nat)
    requires a.Valid() && i <= j <= |a.responses|
    ensures 0.0 <= a.Arrival(i) <= a.Arrival(j)
    decreases j
  {
    if i < j { ArrivalMonotone(a, i, j - 1); }
    else if i > 0 { ArrivalMonotone(a, i - 1, i - 1); }
  }

  lemma {:induction false} ActivityFromFacts(a: Attempt, timeout: real, i: nat)
    requires a.Valid() && timeout > 0.0 && i <= |a.responses|
    requires a.Arrival(i) <= timeout
    requires forall j | 0 <= j < i :: !a.responses[j].chunk.active
    ensures var r := ActivityFrom(a, timeout, i, a.Arrival(i));
            && a.Arrival(i) <= r.elapsed <= timeout
            && (r.outcome.Returned? ==>
                  ActiveInTime(a, timeout, r.outcome.value) && r.elapsed == a.Arrival(r.outcome.value + 1))
            && (forall k: nat | ActiveInTime(a, timeout, k) :: r.outcome == Returned(k))
    decreases |a.responses| - i
  {
    var r := ActivityFrom(a, timeout, i, a.Arrival(i));
    if timeout - a.Arrival(i) > 0.0 && i < |a.responses| && a.responses[i].wait <= timeout - a.Arrival(i)
       && !a.responses[i].chunk.active {
      ActivityFromFacts(a, timeout, i + 1);
    }
    forall k: nat | ActiveInTime(a, timeout, k) ensures r.outcome == Returned(k) {
      ArrivalMonotone(a, i, k);
      if k > i { ArrivalMonotone(a, i + 1, k); }
    }
  }

  /** First activity is found exactly when an active response comes in time, never later than the timeout. */
  lemma FirstActivityExact(a: Attempt, timeout: real)
    requires a.Valid() && timeout > 0.0
    ensures var r := FirstActivity(a, timeout);
            && 0.0 <= r.elapsed <= timeout
            && (forall k: nat :: r.outcome == Returned(k) <==> ActiveInTime(a, timeout, k))
  {
    ActivityFromFacts(a, timeout, 0);
  }

  method FirstActivityChunk(a: Attempt, timeout: real) returns (r: Activity)
    requires a.Valid() && timeout > 0.0
    ensures r == FirstActivity(a, timeout)
  {
    var deadline := timeout;
    var now, i := 0.0, 0;
    while true
      invariant i <= |a.responses|
      invariant ActivityFrom(a, timeout, i, now) == FirstActivity(a, timeout)
      decreases |a.responses| - i
    {
      var remaining := deadline - now;
      if remaining <= 0.0 { return Activity(Raised(TimeoutFailure), now); }
      if i == |a.responses| {
        if a.end.Silent? || a.end.wait > remaining { return Activity(Raised(TimeoutFailure), deadline); }
        if a.end.Closed? { return Activity(Raised(EmptyResponseFailure), now + a.end.wait); }
        return Activity(Raised(a.end.failure), now + a.end.wait);
      }
      var response := a.responses[i];
      if response.wait > remaining { return Activity(Raised(TimeoutFailure), deadline); }
      now := now + response.wait;
      if response.chunk.active { return Activity(Returned(i), now); }
      i := i + 1;
    }
  }

  // ---------------------------------------------------------------- the whole stream

  datatype Ending = Completed | Failed(failure: Failure) | StillOpen

  datatype StreamRun = StreamRun(
    delivered: seq<Chunk>,    // what the consumer received, in order
    ending: Ending,
    attempts: nat,
    decidedAt: real           // accounted time of the first activity, or of the final failure before it
  )

  /** `Settings.llm_stream_first_activity_timeout_seconds` */
  function FirstActivityBound(firstToken: real, cfg: RetryConfig): real {
    firstToken * cfg.maxAttempts as real + (if cfg.maxAttempts > 1 then cfg.totalBudget else 0.0)
  }

  /** Waiting for activity is the operation that the retry session retries. */
  ghost function Activities(attempts: seq<Attempt>, timeout: real): seq<Outcome<nat>> {
    seq(|attempts|, i requires 0 <= i < |attempts| => FirstActivity(attempts[i], timeout).outcome)
  }

  /** Time spent waiting for the provider in the first k attempts. */
  ghost function WaitedFor(attempts: seq<Attempt>, timeout: real, k: nat): real
    requires k <= |attempts|
  {
    if k == 0 then 0.0 else WaitedFor(attempts, timeout, k - 1) + FirstActivity(attempts[k - 1], timeout).elapsed
  }

  /** Accounted time when attempt k has decided. */
  ghost function DecidedAt(cfg: RetryConfig, attempts: seq<Attempt>, timeout: real, draws: seq<real>, k: nat): real
    requires 1 <= k <= |attempts| == |draws|
  {
    WaitedFor(attempts, timeout, k) + Slept(cfg, Activities(attempts, timeout), draws, k - 1)
  }

  /** How the attempt that showed activity ends for the consumer. */
  function EndingOf(e: End): Ending {
    match e
    case Closed(_) => Completed
    case Broken(_, f) => Failed(f)
    case Silent => StillOpen
  }

  ghost predicate ValidAttempts(attempts: seq<Attempt>) {
    forall i | 0 <= i < |attempts| :: attempts[i].Valid()
  }

  lemma {:induction false} WaitedForBound(attempts: seq<Attempt>, timeout: real, k: nat)
    requires timeout > 0.0 && ValidAttempts(attempts) && k <= |attempts|
    ensures 0.0 <= WaitedFor(attempts, timeout, k) <= timeout * k as real
  {
    if k > 0 {
      WaitedForBound(attempts, timeout, k - 1);
      FirstActivityExact(attempts[k - 1], timeout);
      assert timeout * k as real == timeout * (k - 1) as real + timeout;
    }
  }

  lemma TimesMonotone(x: real, a: nat, b: nat)
    requires x > 0.0 && a <= b
    ensures x * a as real <= x * b as real
  {
    assert x * (b - a) as real >= 0.0;
    assert b as real == a as real + (b - a) as real;
  }

  /** The published bound holds of every script, every jitter and every Retry-After. */
  lemma DecidedInTime(cfg: RetryConfig, attempts: seq<Attempt>, timeout: real, draws: seq<real>, k: nat)
    requires cfg.Valid() && timeout > 0.0 && ValidAttempts(attempts) && |attempts| == |draws| == cfg.maxAttempts
    requires LastAttempt(cfg, Activities(attempts, timeout), draws, k)
    ensures DecidedAt(cfg, attempts, timeout, draws, k) <= FirstActivityBound(timeout, cfg)
    ensures FirstActivityBound(timeout, cfg) ==
      timeout * cfg.maxAttempts as real + if cfg.maxAttempts == 1 then 0.0 else cfg.totalBudget
  {
    hide Slept, WaitedFor;
    LastAttemptFacts(cfg, Activities(attempts, timeout), draws, k);
    WaitedForBound(attempts, timeout, k);
    AddBounds(WaitedFor(attempts, timeout, k), Slept(cfg, Activities(attempts, timeout), draws, k - 1),
              timeout, k, cfg.maxAttempts, if cfg.maxAttempts > 1 then cfg.totalBudget else 0.0);
  }

  lemma AddBounds(waited: real, slept: real, timeout: real, k: nat, most: nat, budget: real)
    requires timeout > 0.0 && k <= most && waited <= timeout * k as real && slept <= budget
    ensures waited + slept <= timeout * most as real + budget
  {
    TimesMonotone(timeout, k, most);
  }

  /** The run a stream makes of the attempts it is permitted. */
  ghost predicate StreamedAs(cfg: RetryConfig, timeout: real, attempts: seq<Attempt>, draws: seq<real>, r: StreamRun)
    requires |attempts| == |draws| == cfg.maxAttempts
  {
    && LastAttempt(cfg, Activities(attempts, timeout), draws, r.attempts)
    && r.decidedAt == DecidedAt(cfg, attempts, timeout, draws, r.attempts)
    && match FirstActivity(attempts[r.attempts - 1], timeout).outcome
       case Returned(i) =>
         && ActiveInTime(attempts[r.attempts - 1], timeout, i)
         && r.delivered == attempts[r.attempts - 1].Chunks()[i..]
         && r.ending == EndingOf(attempts[r.attempts - 1].end)
       case Raised(f) => r.delivered == [] && r.ending == Failed(f)
  }

  /**
   * `stream`, given what each permitted attempt would do.  Retries happen only before the first
   * activity; once attempt k shows activity at its response i, the consumer receives the
   * responses of attempt k from i on, and nothing else.
   */
  method Stream(cfg: RetryConfig, timeout: real, attempts: seq<Attempt>, draws: seq<real>)
    returns (r: StreamRun)
    requires cfg.Valid() && timeout > 0.0 && ValidAttempts(attempts) && |attempts| == |draws| == cfg.maxAttempts
    ensures StreamedAs(cfg, timeout, attempts, draws, r)
    ensures r.decidedAt <= FirstActivityBound(timeout, cfg)
  {
    var attempt, first, now := AwaitFirstActivity(cfg, timeout, attempts, Activities(attempts, timeout), draws);
    DecidedInTime(cfg, attempts, timeout, draws, attempt);
    FirstActivityExact(attempts[attempt - 1], timeout);
    match first.outcome {
      case Returned(i) =>
        var delivered := PassThrough(attempts[attempt - 1], i);
        r := StreamRun(delivered, EndingOf(attempts[attempt - 1].end), attempt, now);
      case Raised(f) =>
        r := StreamRun([], Failed(f), attempt, now);
    }
  }

  /** The retry loop, up to the attempt that shows activity or may not be retried. */
  method AwaitFirstActivity(cfg: RetryConfig, timeout: real, attempts: seq<Attempt>,
      ghost outcomes: seq<Outcome<nat>>, draws: seq<real>)
    returns (attempt: nat, first: Activity, now: real)
    requires cfg.Valid() && timeout > 0.0 && ValidAttempts(attempts) && |attempts| == |draws| == cfg.maxAttempts
    requires outcomes == Activities(attempts, timeout)
    ensures LastAttempt(cfg, outcomes, draws, attempt)
    ensures first == FirstActivity(attempts[attempt - 1], timeout)
    ensures now == WaitedFor(attempts, timeout, attempt) + Slept(cfg, outcomes, draws, attempt - 1)
  {
    hide DelayFor, ActivityFrom;
    var session := new LlmTransientRetrySession(cfg);
    attempt := 1;
    var spent := 0.0;
    while attempt <= cfg.maxAttempts
      invariant 1 <= attempt <= cfg.maxAttempts
      invariant session.Valid() && session.config == cfg && fresh(session)
      invariant forall j | 1 <= j < attempt :: !Stops(cfg, outcomes, draws, j)
      invariant session.waitedSeconds == Slept(cfg, outcomes, draws, attempt - 1)
      invariant spent == WaitedFor(attempts, timeout, attempt - 1)
    {
      first := FirstActivityChunk(attempts[attempt - 1], timeout);
      assert first.outcome == outcomes[attempt - 1];
      spent := spent + first.elapsed;
      now := spent + session.waitedSeconds;
      if first.outcome.Returned? { return; }
      var retry := session.RetryAfterFailure(first.outcome.failure, attempt, draws[attempt - 1]);
      if !retry { return; }
      attempt := attempt + 1;
    }
    assert false;  // the for-else branch is unreachable
  }

  /** Yields the first active chunk, then every later one. */
  method PassThrough(a: Attempt, first: nat) returns (delivered: seq<Chunk>)
    requires first < |a.responses|
    ensures delivered == a.Chunks()[first..]
  {
    delivered := [a.responses[first].chunk];
    for i := first + 1 to |a.responses|
      invariant delivered == a.Chunks()[first..i]
    {
      delivered := delivered + [a.responses[i].chunk];
    }
  }

  /** The attempt shows no activity in time. */
  ghost predicate NeverActive(a: Attempt, timeout: real) {
    forall i: nat :: !ActiveInTime(a, timeout, i)
  }

  /**
   * What a stream delivers comes from its last attempt alone, of which it leaves out exactly the
   * chunks before the first active one.  No earlier attempt showed activity in time; and nothing is
   * delivered exactly when the last one did not either.
   */
  lemma DeliveredFromFirstActive(cfg: RetryConfig, timeout: real, attempts: seq<Attempt>, draws: seq<real>,
      r: StreamRun)
    returns (before: seq<Chunk>)
    requires cfg.Valid() && timeout > 0.0 && ValidAttempts(attempts) && |attempts| == |draws| == cfg.maxAttempts
    requires StreamedAs(cfg, timeout, attempts, draws, r)
    ensures 1 <= r.attempts <= |attempts|
    ensures r.delivered != [] ==>
      && attempts[r.attempts - 1].Chunks() == before + r.delivered
      && r.delivered[0].active && forall c | c in before :: !c.active
    ensures forall j | 0 <= j < r.attempts - 1 :: NeverActive(attempts[j], timeout)
    ensures r.delivered == [] <==> NeverActive(attempts[r.attempts - 1], timeout)
    ensures r.delivered != [] ==>
      match attempts[r.attempts - 1].end
      case Closed(_) => r.ending == Completed
      case Broken(_, failure) => r.ending == Failed(failure)
      case Silent => r.ending == StillOpen
  {
    var outcomes := Activities(attempts, timeout);
    var last := attempts[r.attempts - 1];
    FirstActivityExact(last, timeout);
    forall j | 0 <= j < r.attempts - 1
      ensures NeverActive(attempts[j], timeout)
    {
      assert !Stops(cfg, outcomes, draws, j + 1);
      assert outcomes[j] == FirstActivity(attempts[j], timeout).outcome;
      FirstActivityExact(attempts[j], timeout);
    }
    before := [];
    match FirstActivity(last, timeout).outcome {
      case Returned(i) => before := last.Chunks()[..i];
      case Raised(_) =>
    }
  }

  /** The attempt is over in time: closed or broken after its responses, before the deadline. */
  ghost predicate OverInTime(a: Attempt, timeout: real) {
    !a.end.Silent? && a.Arrival(|a.responses|) < timeout && a.Arrival(|a.responses|) + a.end.wait <= timeout
  }

  lemma {:induction false} FailureFrom(a: Attempt, timeout: real, i: nat)
    requires a.Valid() && timeout > 0.0 && i <= |a.responses| && a.Arrival(i) <= timeout
    requires NeverActive(a, timeout) && forall j | 0 <= j < i :: !a.responses[j].chunk.active
    ensures var r := ActivityFrom(a, timeout, i, a.Arrival(i));
      && (!OverInTime(a, timeout) ==> r == Activity(Raised(Failure(None, TimedOut, None)), timeout))
      && (OverInTime(a, timeout) ==>
            && r.elapsed == a.Arrival(|a.responses|) + a.end.wait
            && r.outcome == Raised(if a.end.Broken? then a.end.failure else Failure(None, OtherError, None)))
    decreases |a.responses| - i
  {
    ArrivalMonotone(a, i, |a.responses|);
    if i < |a.responses| {
      ArrivalMonotone(a, i + 1, |a.responses|);
      assert !ActiveInTime(a, timeout, i);
      if a.Arrival(i) < timeout && a.Arrival(i + 1) <= timeout { FailureFrom(a, timeout, i + 1); }
    }
  }

  /**
   * Why no activity came: the attempt broke or closed in time, a closed one as an empty response that
   * is no transient failure; otherwise it timed out, after exactly the timeout.
   */
  lemma FailureReason(a: Attempt, timeout: real)
    requires a.Valid() && timeout > 0.0 && NeverActive(a, timeout)
    ensures var r := FirstActivity(a, timeout);
      && (!OverInTime(a, timeout) ==> r == Activity(Raised(Failure(None, TimedOut, None)), timeout))
      && (OverInTime(a, timeout) ==>
            && r.elapsed == a.Arrival(|a.responses|) + a.end.wait
            && r.outcome == Raised(if a.end.Broken? then a.end.failure else Failure(None, OtherError, None)))
  {
    FailureFrom(a, timeout, 0);
  }

  /**
   * A stream begins another attempt after one exactly if that one showed no activity, and timed out or
   * broke with a transient failure, and attempts and budget remain.  An empty response is not retried.
   */
  lemma StreamRetriesExactly(cfg: RetryConfig, timeout: real, attempts: seq<Attempt>, draws: seq<real>,
      r: StreamRun, j: nat)
    requires cfg.Valid() && timeout > 0.0 && ValidAttempts(attempts) && |attempts| == |draws| == cfg.maxAttempts
    requires StreamedAs(cfg, timeout, attempts, draws, r) && 1 <= j <= r.attempts
    ensures var a := attempts[j - 1];
      var failure := if OverInTime(a, timeout) && a.end.Broken? then a.end.failure else Failure(None, TimedOut, None);
      j < r.attempts <==>
        && NeverActive(a, timeout)
        && !(OverInTime(a, timeout) && a.end.Closed?)
        && (match failure.statusCode
            case Some(code) => code == 408 || code == 429 || 500 <= code <= 599
            case None => failure.kind == TimedOut || failure.kind == ConnectionLost)
        && j < cfg.maxAttempts
        && Slept(cfg, Activities(attempts, timeout), draws, j - 1) + Delay(cfg, failure, j, draws[j - 1])
           <= cfg.totalBudget
  {
    var a, outcomes := attempts[j - 1], Activities(attempts, timeout);
    assert outcomes[j - 1] == FirstActivity(a, timeout).outcome;
    RetriedExactly(cfg, outcomes, draws, r.attempts, j);
    FirstActivityExact(a, timeout);
    if NeverActive(a, timeout) { FailureReason(a, timeout); }
    hide Slept, DelayFor, ActivityFrom, OverInTime;
  }

  /** When every attempt stays silent, each one costs the whole timeout; with one attempt that attains the bound. */
  lemma SilenceTakesTheTimeout(cfg: RetryConfig, timeout: real, attempts: seq<Attempt>, draws: seq<real>, r: StreamRun)
    requires cfg.Valid() && timeout > 0.0 && |attempts| == |draws| == cfg.maxAttempts
    requires ValidAttempts(attempts) && forall i | 0 <= i < |attempts| :: attempts[i] == Attempt([], Silent)
    requires StreamedAs(cfg, timeout, attempts, draws, r)
    ensures r.delivered == [] && r.ending == Failed(Failure(None, TimedOut, None))
    ensures r.decidedAt ==
      timeout * r.attempts as real + Slept(cfg, Activities(attempts, timeout), draws, r.attempts - 1)
    ensures cfg.maxAttempts == 1 ==> r.decidedAt == FirstActivityBound(timeout, cfg)
  {
    hide FirstActivity, Slept, WaitedFor, LastAttempt, Stops, Activities, FirstActivityBound, StreamedAs, DecidedAt;
    StreamParts(cfg, timeout, attempts, draws, r);
    SilentTimesOut(attempts[r.attempts - 1], timeout);
    NoSleepBefore(cfg, Activities(attempts, timeout), draws);
    WaitedInSilence(attempts, timeout, r.attempts);
    BoundAttained(cfg, timeout);
  }

  lemma StreamParts(cfg: RetryConfig, timeout: real, attempts: seq<Attempt>, draws: seq<real>, r: StreamRun)
    requires |attempts| == |draws| == cfg.maxAttempts && StreamedAs(cfg, timeout, attempts, draws, r)
    ensures 1 <= r.attempts <= |attempts| && |Activities(attempts, timeout)| == |draws|
    ensures r.decidedAt ==
      WaitedFor(attempts, timeout, r.attempts) + Slept(cfg, Activities(attempts, timeout), draws, r.attempts - 1)
    ensures var outcome := FirstActivity(attempts[r.attempts - 1], timeout).outcome;
      outcome.Raised? ==> r.delivered == [] && r.ending == Failed(outcome.failure)
  {
    hide FirstActivity, Slept, WaitedFor, Stops;
  }

  lemma BoundAttained(cfg: RetryConfig, timeout: real)
    ensures cfg.maxAttempts == 1 ==> timeout * 1 as real + 0.0 == FirstActivityBound(timeout, cfg)
  {
  }

  lemma NoSleepBefore(cfg: RetryConfig, outcomes: seq<Outcome<nat>>, draws: seq<real>)
    requires |outcomes| == |draws|
    ensures Slept(cfg, outcomes, draws, 0) == 0.0
  {
  }

  lemma SilentTimesOut(a: Attempt, timeout: real)
    requires timeout > 0.0 && a == Attempt([], Silent)
    ensures FirstActivity(a, timeout) == Activity(Raised(Failure(None, TimedOut, None)), timeout)
  {
    FailureReason(a, timeout);
  }

  lemma {:induction false} WaitedInSilence(attempts: seq<Attempt>, timeout: real, k: nat)
    requires timeout > 0.0 && k <= |attempts| && forall i | 0 <= i < |attempts| :: attempts[i] == Attempt([], Silent)
    ensures WaitedFor(attempts, timeout, k) == timeout * k as real
  {
    if k > 0 {
      WaitedInSilence(attempts, timeout, k - 1);
      SilentTimesOut(attempts[k - 1], timeout);
      assert timeout * k as real == timeout * (k - 1) as real + timeout;
    }
  }

  /** A first attempt that shows activity decides when that response arrives. */
  lemma ActivityDecidesOnArrival(cfg: RetryConfig, timeout: real, attempts: seq<Attempt>, draws: seq<real>,
      r: StreamRun, k: nat)
    requires cfg.Valid() && timeout > 0.0 && ValidAttempts(attempts) && |attempts| == |draws| == cfg.maxAttempts
    requires StreamedAs(cfg, timeout, attempts, draws, r) && ActiveInTime(attempts[0], timeout, k)
    ensures r.attempts == 1 && r.decidedAt == attempts[0].Arrival(k + 1)
    ensures r.delivered == attempts[0].Chunks()[k..]
  {
    FirstActivityExact(attempts[0], timeout);
    var outcomes := Activities(attempts, timeout);
    assert outcomes[0] == FirstActivity(attempts[0], timeout).outcome;
    ActivityFromFacts(attempts[0], timeout, 0);
    assert Stops(cfg, outcomes, draws, 1);
    assert WaitedFor(attempts, timeout, 0) == 0.0;
    hide ActivityFrom, DelayFor;
  }
}
