/**
 * Many callers sharing one governor, each running the retry loop around governed attempts.
 * One step is one critical section or one move of a caller's program counter: a semaphore poll,
 * a pass through the token lock, leaving the context manager, the release in its `finally`, the
 * retry decision, the end of a backoff.  Any interleaving is a run.
 */
module GovernedCalls {
  import opened FiniteSets
  import opened Instants
  import opened Outcomes
  import opened RequestGovernance

  datatype Exit = Succeeded | Raised | Cancelled

  /** `emitted`: the attempt has shown activity to the consumer of a stream. */
  datatype Phase =
    | Idle                                  // the loop has not begun
    | WaitingSlot                           // entering the context manager
    | WaitingToken                          // inside it, waiting for a token
    | Upstream(emitted: bool)               // the provider call is running
    | Leaving(exit: Exit, emitted: bool)    // in the `finally`, before the release
    | Outside(exit: Exit, emitted: bool)    // after the release, back in the retry loop
    | BackingOff                            // asleep between two attempts
    | Finished

  /** `held`: how many slots the caller has taken and not returned. */
  datatype Caller = Caller(phase: Phase, attempt: nat, held: int)

  datatype System = System(
    bucket: Bucket,
    freeSlots: nat,
    callers: map<nat, Caller>,
    attempts: seq<real>,      // when each provider call started
    overReleased: bool        // a release found the semaphore full
  )

  datatype Step =
    | BeginAttempt(caller: nat)
    | PollSlot(caller: nat)
    | PollToken(caller: nat, now: real)
    | ShowActivity(caller: nat)
    | LeaveAttempt(caller: nat, exit: Exit)   // success, failure or cancellation, wherever it strikes
    | Release(caller: nat)
    | Decide(caller: nat, retry: bool)
    | GiveUpWaiting(caller: nat)              // cancelled before a slot was taken, or while backing off

  function Start(l: Limits, now: real, callers: set<nat>): System {
    System(Full(l, now), l.maxConcurrency, map c | c in callers :: Caller(Idle, 0, 0), [], false)
  }

  ghost predicate Enabled(maxAttempts: nat, s: System, e: Step) {
    && e.caller in s.callers
    && var caller := s.callers[e.caller];
       var p := caller.phase;
       match e
       case BeginAttempt(_) => (p.Idle? && maxAttempts >= 1) || p.BackingOff?
       case PollSlot(_) => p.WaitingSlot?
       case PollToken(_, now) => p.WaitingToken? && s.bucket.lastRefill <= now
       case ShowActivity(_) => p == Upstream(false)
       case LeaveAttempt(_, exit) => (p.WaitingToken? && exit != Succeeded) || p.Upstream?
       case Release(_) => p.Leaving?
       case Decide(_, retry) => p.Outside? && (retry ==> p.exit == Raised && !p.emitted && caller.attempt < maxAttempts)
       case GiveUpWaiting(_) => p.WaitingSlot? || p.BackingOff?
  }

  function Moved(s: System, c: nat, caller: Caller): System {
    s.(callers := s.callers[c := caller])
  }

  ghost function Do(l: Limits, maxAttempts: nat, s: System, e: Step): System
    requires l.Rate() > 0.0 && Enabled(maxAttempts, s, e)
  {
    var caller := s.callers[e.caller];
    match e
    case BeginAttempt(c) => Moved(s, c, caller.(phase := WaitingSlot, attempt := caller.attempt + 1))
    case PollSlot(c) =>
      (match TakeSlot(s.freeSlots)
       case None => s
       case Some(free) => Moved(s, c, caller.(phase := WaitingToken, held := caller.held + 1)).(freeSlots := free))
    case PollToken(c, now) =>
      var (bucket, delay) := Poll(l, s.bucket, now);
      if delay.Some? then s.(bucket := bucket)
      else Moved(s, c, caller.(phase := Upstream(false))).(bucket := bucket, attempts := s.attempts + [now])
    case ShowActivity(c) => Moved(s, c, caller.(phase := Upstream(true)))
    case LeaveAttempt(c, exit) =>
      Moved(s, c, caller.(phase := Leaving(exit, caller.phase.Upstream? && caller.phase.emitted)))
    case Release(c) =>
      var after := Outside(caller.phase.exit, caller.phase.emitted);
      var outside := Moved(s, c, caller.(phase := after, held := caller.held - 1));
      (match ReturnSlot(l.maxConcurrency, s.freeSlots)
       case Ok(free) => outside.(freeSlots := free)
       case Err(_) => outside.(overReleased := true))
    case Decide(c, retry) => Moved(s, c, caller.(phase := if retry then BackingOff else Finished))
    case GiveUpWaiting(c) => Moved(s, c, caller.(phase := Finished))
  }

  ghost predicate IsRun(l: Limits, maxAttempts: nat, s: System, es: seq<Step>)
    requires l.Rate() > 0.0
    decreases |es|
  {
    es == [] || (Enabled(maxAttempts, s, es[0]) && IsRun(l, maxAttempts, Do(l, maxAttempts, s, es[0]), es[1..]))
  }

  ghost function After(l: Limits, maxAttempts: nat, s: System, es: seq<Step>): System
    requires l.Rate() > 0.0 && IsRun(l, maxAttempts, s, es)
    decreases |es|
  {
    if es == [] then s else After(l, maxAttempts, Do(l, maxAttempts, s, es[0]), es[1..])
  }

  // ---------------------------------------------------------------- counting held slots

  ghost function HeldBy(cs: set<nat>, callers: map<nat, Caller>): int
    requires cs <= callers.Keys
  {
    if cs == {} then 0
    else
      var c :| c in cs;
      callers[c].held + HeldBy(cs - {c}, callers)
  }

  lemma {:induction false} HeldByOne(cs: set<nat>, callers: map<nat, Caller>, c: nat)
    requires cs <= callers.Keys && c in cs
    ensures HeldBy(cs, callers) == callers[c].held + HeldBy(cs - {c}, callers)
  {
    var d :| d in cs && HeldBy(cs, callers) == callers[d].held + HeldBy(cs - {d}, callers);
    if d != c {
      HeldByOne(cs - {d}, callers, c);
      HeldByOne(cs - {c}, callers, d);
      assert cs - {d} - {c} == cs - {c} - {d};
    }
  }

  lemma {:induction false} HeldBySame(cs: set<nat>, callers: map<nat, Caller>, callers': map<nat, Caller>)
    requires cs <= callers.Keys && cs <= callers'.Keys
    requires forall c | c in cs :: callers[c].held == callers'[c].held
    ensures HeldBy(cs, callers) == HeldBy(cs, callers')
  {
    if cs != {} {
      var c :| c in cs;
      HeldByOne(cs, callers, c);
      HeldByOne(cs, callers', c);
      HeldBySame(cs - {c}, callers, callers');
    }
  }

  /** If nobody holds less than nothing, the holders in a set number at most what all hold. */
  lemma {:induction false} HoldersCounted(cs: set<nat>, callers: map<nat, Caller>, holders: set<nat>)
    requires holders <= cs <= callers.Keys
    requires forall c | c in cs :: callers[c].held >= if c in holders then 1 else 0
    ensures |holders| <= HeldBy(cs, callers)
  {
    if cs == {} {
      assert holders == {};
    } else {
      var c :| c in cs;
      HeldByOne(cs, callers, c);
      HoldersCounted(cs - {c}, callers, holders - {c});
      assert holders == if c in holders then (holders - {c}) + {c} else holders - {c};
    }
  }

  ghost function AllHeld(s: System): int {
    HeldBy(s.callers.Keys, s.callers)
  }

  lemma AllHeldMoved(s: System, c: nat, caller: Caller)
    requires c in s.callers
    ensures AllHeld(Moved(s, c, caller)) == AllHeld(s) - s.callers[c].held + caller.held
  {
    var s' := Moved(s, c, caller);
    assert s'.callers.Keys == s.callers.Keys;
    HeldByOne(s.callers.Keys, s.callers, c);
    HeldByOne(s.callers.Keys, s'.callers, c);
    HeldBySame(s.callers.Keys - {c}, s.callers, s'.callers);
  }

  // ---------------------------------------------------------------- invariants

  /** The stretch of the program between taking a slot and returning it. */
  predicate Inside(p: Phase) {
    p.WaitingToken? || p.Upstream? || p.Leaving?
  }

  ghost predicate GoodCaller(maxAttempts: nat, caller: Caller) {
    && caller.held == (if Inside(caller.phase) then 1 else 0)
    && caller.attempt <= maxAttempts
    && (caller.phase.BackingOff? ==> caller.attempt < maxAttempts)
    && (caller.phase.Idle? ==> caller.attempt == 0)
  }

  ghost predicate Ledger(l: Limits, maxAttempts: nat, s: System) {
    && s.freeSlots + AllHeld(s) == l.maxConcurrency && !s.overReleased
    && forall c | c in s.callers :: GoodCaller(maxAttempts, s.callers[c])
  }

  ghost predicate RateKept(l: Limits, s: System) {
    && ValidBucket(l, s.bucket) && Nondecreasing(s.attempts) && Conforming(l, s.attempts)
    && (forall i | 0 <= i < |s.attempts| :: s.attempts[i] <= s.bucket.lastRefill)
    && TightLevel(l, s.bucket, s.attempts)
  }

  lemma LedgerMoved(l: Limits, maxAttempts: nat, s: System, c: nat, caller: Caller, free: nat)
    requires Ledger(l, maxAttempts, s) && c in s.callers && GoodCaller(maxAttempts, caller)
    requires free + caller.held == s.freeSlots + s.callers[c].held
    ensures Ledger(l, maxAttempts, Moved(s, c, caller).(freeSlots := free))
  {
    AllHeldMoved(s, c, caller);
    hide HeldBy;
    assert AllHeld(Moved(s, c, caller).(freeSlots := free)) == AllHeld(Moved(s, c, caller));
  }

  /** A caller about to release leaves room for its slot. */
  lemma RoomToRelease(l: Limits, maxAttempts: nat, s: System, c: nat)
    requires Ledger(l, maxAttempts, s) && c in s.callers && s.callers[c].phase.Leaving?
    ensures s.freeSlots < l.maxConcurrency
  {
    HoldersCounted(s.callers.Keys, s.callers, {c});
  }

  lemma LedgerStep(l: Limits, maxAttempts: nat, s: System, e: Step)
    requires l.Valid() && Ledger(l, maxAttempts, s) && Enabled(maxAttempts, s, e)
    ensures Ledger(l, maxAttempts, Do(l, maxAttempts, s, e))
  {
    var c := e.caller;
    var s' := Do(l, maxAttempts, s, e);
    assert GoodCaller(maxAttempts, s.callers[c]);
    if e.Release? { RoomToRelease(l, maxAttempts, s, c); }
    hide HeldBy, AllHeld, Poll;
    if s'.callers != s.callers || s'.freeSlots != s.freeSlots {
      LedgerMoved(l, maxAttempts, s, c, s'.callers[c], s'.freeSlots);
      LedgerAlone(l, maxAttempts, Moved(s, c, s'.callers[c]).(freeSlots := s'.freeSlots), s');
    } else {
      LedgerAlone(l, maxAttempts, s, s');
    }
  }

  lemma LedgerAlone(l: Limits, maxAttempts: nat, s: System, s': System)
    requires Ledger(l, maxAttempts, s)
    requires s'.callers == s.callers && s'.freeSlots == s.freeSlots && s'.overReleased == s.overReleased
    ensures Ledger(l, maxAttempts, s')
  {
  }

  lemma RateStep(l: Limits, maxAttempts: nat, s: System, e: Step)
    requires l.Valid() && RateKept(l, s) && Enabled(maxAttempts, s, e)
    ensures RateKept(l, Do(l, maxAttempts, s, e))
  {
    if e.PollToken? {
      EarnedMonotone(l, s.bucket.lastRefill, e.now);
      PollByEarned(l, s.bucket, e.now);
      if Grants(l, s.bucket, e.now) {
        GrantKeepsRate(l, maxAttempts, s, e);
      } else {
        RefusalKeepsRate(l, maxAttempts, s, e);
      }
    }
  }

  lemma RefusalKeepsRate(l: Limits, maxAttempts: nat, s: System, e: Step)
    requires l.Valid() && RateKept(l, s) && Enabled(maxAttempts, s, e)
    requires e.PollToken? && !Grants(l, s.bucket, e.now)
    ensures RateKept(l, Do(l, maxAttempts, s, e))
  {
    PollByEarned(l, s.bucket, e.now);
    EarnedMonotone(l, s.bucket.lastRefill, e.now);
    RefusedStaysTight(l, s.bucket, s.attempts, e.now);
    hide TightLevel, Conforming, Earned;
  }

  lemma GrantKeepsRate(l: Limits, maxAttempts: nat, s: System, e: Step)
    requires l.Valid() && RateKept(l, s) && Enabled(maxAttempts, s, e)
    requires e.PollToken? && Grants(l, s.bucket, e.now)
    ensures RateKept(l, Do(l, maxAttempts, s, e))
  {
    PollByEarned(l, s.bucket, e.now);
    EarnedMonotone(l, s.bucket.lastRefill, e.now);
    TightStep(l, s.bucket, s.attempts, e.now);
    hide TightLevel, Conforming, Earned;
  }

  lemma {:induction false} RunKeeps(l: Limits, maxAttempts: nat, s: System, es: seq<Step>)
    requires l.Valid() && Ledger(l, maxAttempts, s) && RateKept(l, s) && IsRun(l, maxAttempts, s, es)
    ensures Ledger(l, maxAttempts, After(l, maxAttempts, s, es)) && RateKept(l, After(l, maxAttempts, s, es))
    decreases |es|
  {
    if es != [] {
      LedgerStep(l, maxAttempts, s, es[0]);
      RateStep(l, maxAttempts, s, es[0]);
      hide Ledger, RateKept;
      RunKeeps(l, maxAttempts, Do(l, maxAttempts, s, es[0]), es[1..]);
    }
  }

  lemma StartKeeps(l: Limits, maxAttempts: nat, now: real, callers: set<nat>)
    requires l.Valid()
    ensures Ledger(l, maxAttempts, Start(l, now, callers)) && RateKept(l, Start(l, now, callers))
  {
    var s := Start(l, now, callers);
    NothingHeld(s.callers.Keys, s.callers);
  }

  lemma {:induction false} NothingHeld(cs: set<nat>, callers: map<nat, Caller>)
    requires cs <= callers.Keys && forall c | c in cs :: callers[c].held == 0
    ensures HeldBy(cs, callers) == 0
  {
    if cs != {} {
      var c :| c in cs;
      HeldByOne(cs, callers, c);
      NothingHeld(cs - {c}, callers);
    }
  }

  /** The callers whose provider call is running. */
  ghost function Calling(s: System): set<nat> {
    set c | c in s.callers && s.callers[c].phase.Upstream?
  }

  /**
   * Permit ledger: whatever the interleaving, and however attempts end, the free slots and the
   * slots the callers hold add up to the configured concurrency, and no release is one too many.
   * A caller holds one slot while it waits for a token, calls the provider or leaves, and none
   * otherwise; so none while it backs off.
   */
  lemma PermitLedger(l: Limits, maxAttempts: nat, now: real, callers: set<nat>, es: seq<Step>)
    requires l.Valid() && IsRun(l, maxAttempts, Start(l, now, callers), es)
    ensures var s := After(l, maxAttempts, Start(l, now, callers), es);
            && s.freeSlots + AllHeld(s) == l.maxConcurrency
            && !s.overReleased
            && (forall c | c in s.callers :: s.callers[c].held == if Inside(s.callers[c].phase) then 1 else 0)
            && (forall c | c in s.callers && s.callers[c].phase.BackingOff? :: s.callers[c].held == 0)
            && |Calling(s)| <= l.maxConcurrency
            && (forall c | c in s.callers :: s.callers[c].attempt <= maxAttempts)
  {
    StartKeeps(l, maxAttempts, now, callers);
    RunKeeps(l, maxAttempts, Start(l, now, callers), es);
    var s := After(l, maxAttempts, Start(l, now, callers), es);
    hide After, IsRun, RateKept, HeldBy, Start;
    HoldersCounted(s.callers.Keys, s.callers, Calling(s));
  }

  /**
   * Rate: however many callers retry however often, the provider calls that start in any
   * closed window number at most burst plus what the window earns.
   */
  lemma AttemptsInAnyWindow(l: Limits, maxAttempts: nat, now: real, callers: set<nat>, es: seq<Step>,
      from: real, to: real)
    requires l.Valid() && IsRun(l, maxAttempts, Start(l, now, callers), es) && from <= to
    ensures |InWindow(After(l, maxAttempts, Start(l, now, callers), es).attempts, from, to)| as real
            <= l.burst as real + l.requestsPerMinute / 60.0 * (to - from)
  {
    StartKeeps(l, maxAttempts, now, callers);
    RunKeeps(l, maxAttempts, Start(l, now, callers), es);
    var s := After(l, maxAttempts, Start(l, now, callers), es);
    EarnedIs(l, from, to);
    hide After, IsRun, Ledger, Conforming, ValidBucket, Bounds, Nondecreasing, Earned;
    ConformingWindow(l, s.attempts, from, to);
  }

  /** An attempt at t keeps every stretch of attempts up to it within burst plus what the stretch earns. */
  ghost predicate RoomFor(l: Limits, attempts: seq<real>, t: real) {
    forall i | 0 <= i < |attempts| ::
      (|attempts| - i + 1) as real <= l.burst as real + l.requestsPerMinute / 60.0 * (t - attempts[i])
  }

  /**
   * And no caller is kept waiting for less: in any interleaving, a poll is granted exactly if the new
   * attempt keeps every stretch of attempts up to it within burst plus what the stretch earns, and a
   * slot is taken exactly if the callers hold fewer than the configured concurrency.
   */
  lemma PollsGrantedExactly(l: Limits, maxAttempts: nat, now: real, callers: set<nat>, es: seq<Step>, c: nat, t: real)
    requires l.Valid() && IsRun(l, maxAttempts, Start(l, now, callers), es)
    requires var s := After(l, maxAttempts, Start(l, now, callers), es); c in s.callers && s.bucket.lastRefill <= t
    ensures var s := After(l, maxAttempts, Start(l, now, callers), es);
      && (s.callers[c].phase.WaitingToken? ==>
            var s' := Do(l, maxAttempts, s, PollToken(c, t));
            && c in s'.callers
            && s'.attempts == (if s'.callers[c].phase == Upstream(false) then s.attempts + [t] else s.attempts)
            && (s'.callers[c].phase == Upstream(false) <==> RoomFor(l, s.attempts, t)))
      && (s.callers[c].phase.WaitingSlot? ==>
            var s' := Do(l, maxAttempts, s, PollSlot(c));
            && c in s'.callers
            && (s'.callers[c].phase == WaitingToken <==> AllHeld(s) < l.maxConcurrency))
  {
    StartKeeps(l, maxAttempts, now, callers);
    RunKeeps(l, maxAttempts, Start(l, now, callers), es);
    var s := After(l, maxAttempts, Start(l, now, callers), es);
    hide After, IsRun, Start, Ledger, RateKept, Do, RoomFor;
    if s.callers[c].phase.WaitingToken? { TokenPoll(l, maxAttempts, s, c, t); }
    if s.callers[c].phase.WaitingSlot? { SlotPoll(l, maxAttempts, s, c); }
  }

  lemma TokenPoll(l: Limits, maxAttempts: nat, s: System, c: nat, t: real)
    requires l.Valid() && RateKept(l, s) && c in s.callers && s.callers[c].phase.WaitingToken?
    requires s.bucket.lastRefill <= t
    ensures var s' := Do(l, maxAttempts, s, PollToken(c, t));
      && c in s'.callers
      && s'.attempts == (if s'.callers[c].phase == Upstream(false) then s.attempts + [t] else s.attempts)
      && (s'.callers[c].phase == Upstream(false) <==> RoomFor(l, s.attempts, t))
  {
    TightStep(l, s.bucket, s.attempts, t);
    ConformsWithRoom(l, s.attempts, t);
    hide TightLevel, Conforming, Earned, RoomFor, Refilled, ValidBucket;
  }

  lemma SlotPoll(l: Limits, maxAttempts: nat, s: System, c: nat)
    requires l.Valid() && Ledger(l, maxAttempts, s) && c in s.callers && s.callers[c].phase.WaitingSlot?
    ensures var s' := Do(l, maxAttempts, s, PollSlot(c));
      c in s'.callers && (s'.callers[c].phase == WaitingToken <==> AllHeld(s) < l.maxConcurrency)
  {
    hide HeldBy;
  }

  lemma ConformsWithRoom(l: Limits, ts: seq<real>, t: real)
    requires l.Valid() && Conforming(l, ts)
    ensures Conforming(l, ts + [t]) <==> RoomFor(l, ts, t)
  {
    ConformingStep(l, ts, t);
    LastBound(l, ts, t);
    forall i | 0 <= i < |ts|
      ensures 0.0 <= Bounds(l, ts + [t], t)[i] <==>
        (|ts| - i + 1) as real <= l.burst as real + l.requestsPerMinute / 60.0 * (t - ts[i])
    {
      EarnedIs(l, ts[i], t);
      assert (ts + [t])[i] == ts[i];
      hide Earned, Conforming;
    }
    hide Bounds, Conforming;
  }

  lemma LastBound(l: Limits, ts: seq<real>, t: real)
    requires l.Valid()
    ensures |Bounds(l, ts + [t], t)| == |ts| + 1 && 0.0 <= Bounds(l, ts + [t], t)[|ts|]
  {
    assert Earned(l, t, t) == 0.0;
  }

  // ---------------------------------------------------------------- when a call is over

  /** The call has shown activity, has succeeded or was cancelled, or has ended. */
  predicate Settled(p: Phase) {
    || p.Finished? || p == Upstream(true)
    || ((p.Leaving? || p.Outside?) && (p.emitted || p.exit != Raised))
  }

  /** Once a caller has shown activity, succeeded or been cancelled, it never begins another attempt. */
  lemma {:induction false} SettledForGood(l: Limits, maxAttempts: nat, s: System, es: seq<Step>, c: nat)
    requires l.Valid() && IsRun(l, maxAttempts, s, es) && c in s.callers && Settled(s.callers[c].phase)
    ensures var s' := After(l, maxAttempts, s, es);
      c in s'.callers && Settled(s'.callers[c].phase) && s'.callers[c].attempt == s.callers[c].attempt
    decreases |es|
  {
    if es != [] { SettledForGood(l, maxAttempts, Do(l, maxAttempts, s, es[0]), es[1..], c); }
  }

  /** So after activity, success or cancellation the attempt under way remains the last one. */
  lemma NoAttemptAfterwards(l: Limits, maxAttempts: nat, s: System, es: seq<Step>, c: nat)
    requires l.Valid() && IsRun(l, maxAttempts, s, es) && es != [] && es[0].caller == c
    requires es[0].ShowActivity? || (es[0].LeaveAttempt? && es[0].exit != Raised)
    ensures var s' := After(l, maxAttempts, s, es);
      && c in s.callers && c in s'.callers
      && s'.callers[c].attempt == s.callers[c].attempt
      && !s'.callers[c].phase.BackingOff? && !s'.callers[c].phase.WaitingSlot?
  {
    SettledForGood(l, maxAttempts, Do(l, maxAttempts, s, es[0]), es[1..], c);
    hide IsRun;
  }

  /** How often c begins an attempt. */
  function AttemptsBegun(es: seq<Step>, c: nat): nat {
    if es == [] then 0 else (if es[0] == BeginAttempt(c) then 1 else 0) + AttemptsBegun(es[1..], c)
  }

  lemma {:induction false} AttemptsCounted(l: Limits, maxAttempts: nat, s: System, es: seq<Step>, c: nat)
    requires l.Valid() && IsRun(l, maxAttempts, s, es) && c in s.callers
    ensures var s' := After(l, maxAttempts, s, es);
      c in s'.callers && s'.callers[c].attempt == s.callers[c].attempt + AttemptsBegun(es, c)
    decreases |es|
  {
    hide Poll;
    if es != [] { AttemptsCounted(l, maxAttempts, Do(l, maxAttempts, s, es[0]), es[1..], c); }
  }

  /** In any interleaving a caller begins at most the configured number of attempts. */
  lemma AttemptsBounded(l: Limits, maxAttempts: nat, now: real, callers: set<nat>, es: seq<Step>, c: nat)
    requires l.Valid() && IsRun(l, maxAttempts, Start(l, now, callers), es) && c in callers
    ensures AttemptsBegun(es, c) <= maxAttempts
  {
    AttemptsCounted(l, maxAttempts, Start(l, now, callers), es, c);
    PermitLedger(l, maxAttempts, now, callers, es);
    hide IsRun, After;
  }

  /** A caller that has not ended can always move on. */
  lemma NeverStuck(maxAttempts: nat, s: System, c: nat) returns (e: Step)
    requires maxAttempts >= 1 && c in s.callers && s.callers[c].phase != Finished
    ensures e.caller == c && Enabled(maxAttempts, s, e)
  {
    e := match s.callers[c].phase
         case Idle => BeginAttempt(c)
         case WaitingSlot => PollSlot(c)
         case WaitingToken => PollToken(c, s.bucket.lastRefill)
         case Upstream(_) => LeaveAttempt(c, Succeeded)
         case Leaving(_, _) => Release(c)
         case Outside(_, _) => Decide(c, false)
         case BackingOff => BeginAttempt(c);
  }
}
