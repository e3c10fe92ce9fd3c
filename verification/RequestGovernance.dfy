/**
 * The shared request governor: a lazily refilled token bucket and a bounded semaphore.
 * The clock is a parameter of each poll.  Times and token amounts are exact reals.
 */
module RequestGovernance {
  import opened FiniteSets
  import opened Instants
  import opened Outcomes

  /** `LlmRequestGovernanceConfig`; the settings require every field to be positive. */
  datatype Limits = Limits(requestsPerMinute: real, burst: nat, maxConcurrency: nat) {
    ghost predicate Valid() {
      requestsPerMinute > 0.0 && burst >= 1 && maxConcurrency >= 1
    }

    /** Tokens earned per second. */
    function Rate(): real { requestsPerMinute / 60.0 }

    function Capacity(): real { burst as real }
  }

  datatype Bucket = Bucket(tokens: real, lastRefill: real)

  /** What an ideal, never full, bucket earns between two instants. */
  function Earned(l: Limits, from: real, to: real): real { (to - from) * l.Rate() }

  function Refilled(l: Limits, b: Bucket, now: real): Bucket {
    Bucket(Min(l.Capacity(), b.tokens + Max(0.0, now - b.lastRefill) * l.Rate()), now)
  }

  /** One pass through the token lock: `None` is a granted token, `Some(d)` says to retry after d. */
  function Poll(l: Limits, b: Bucket, now: real): (Bucket, Option<real>)
    requires l.Rate() > 0.0
  {
    var r := Refilled(l, b, now);
    if r.tokens >= 1.0 then (Bucket(r.tokens - 1.0, now), None)
    else (r, Some((1.0 - r.tokens) / l.Rate()))
  }

  predicate Grants(l: Limits, b: Bucket, now: real)
    requires l.Rate() > 0.0
  {
    Poll(l, b, now).1.None?
  }

  ghost predicate ValidBucket(l: Limits, b: Bucket) {
    0.0 <= b.tokens <= l.Capacity()
  }

  lemma EarnedAdds(l: Limits, a: real, b: real, c: real)
    ensures Earned(l, a, b) + Earned(l, b, c) == Earned(l, a, c)
  {
    assert (b - a) * l.Rate() + (c - b) * l.Rate() == ((b - a) + (c - b)) * l.Rate();
  }

  lemma EarnedMonotone(l: Limits, a: real, b: real)
    requires l.Rate() > 0.0
    ensures a <= b ==> Earned(l, a, b) >= 0.0
    ensures a < b ==> Earned(l, a, b) > 0.0
  {
    var time, rate := b - a, l.Rate();
    assert Earned(l, a, b) == time * rate && 0.0 * rate == 0.0;
    ScaleOrder(time, 0.0, rate);
    ScaleOrder(0.0, time, rate);
  }

  // ---------------------------------------------------------------- one bucket

  /** Refilling twice is refilling once, so the lazy bucket is the continuous one. */
  lemma RefillComposes(l: Limits, b: Bucket, t1: real, t2: real)
    requires l.Valid() && b.lastRefill <= t1 <= t2
    ensures Refilled(l, Refilled(l, b, t1), t2) == Refilled(l, b, t2)
  {
    EarnedAdds(l, b.lastRefill, t1, t2);
    EarnedMonotone(l, t1, t2);
    assert Earned(l, b.lastRefill, t1) == (t1 - b.lastRefill) * l.Rate();
    assert Earned(l, t1, t2) == (t2 - t1) * l.Rate();
    assert Earned(l, b.lastRefill, t2) == (t2 - b.lastRefill) * l.Rate();
  }

  /**
   * The delay returned by a refused poll is exact: positive, at most 60/rpm, and a lone
   * caller that polls again at `later` is served precisely when the delay has passed.
   */
  lemma DelayIsExact(l: Limits, b: Bucket, now: real, later: real)
    requires l.Valid() && ValidBucket(l, b) && b.lastRefill <= now <= later
    requires !Grants(l, b, now)
    ensures 0.0 < Poll(l, b, now).1.value <= 60.0 / l.requestsPerMinute
    ensures Grants(l, Poll(l, b, now).0, later) <==> later >= now + Poll(l, b, now).1.value
  {
    var r := Refilled(l, b, now);
    var rate := l.Rate();
    var d := Poll(l, b, now).1.value;
    assert 0.0 <= Earned(l, b.lastRefill, now) by { EarnedMonotone(l, b.lastRefill, now); }
    assert Earned(l, b.lastRefill, now) == Max(0.0, now - b.lastRefill) * rate;
    assert d * rate == 1.0 - r.tokens;
    assert d <= 60.0 / l.requestsPerMinute by {
      assert (60.0 / l.requestsPerMinute) * rate == 1.0;
      ScaleOrder(60.0 / l.requestsPerMinute, d, rate);
    }
    var waited := later - now;
    assert waited * rate >= d * rate <==> waited >= d by { ScaleOrder(waited, d, rate); }
  }

  lemma ScaleOrder(x: real, y: real, r: real)
    requires r > 0.0
    ensures x * r >= y * r <==> x >= y
  {
    if x < y { assert (y - x) * r > 0.0; } else { assert (x - y) * r >= 0.0; }
  }

  // ---------------------------------------------------------------- sequences of polls

  ghost predicate Nondecreasing(ts: seq<real>) {
    forall i, j | 0 <= i <= j < |ts| :: ts[i] <= ts[j]
  }

  ghost predicate NotBefore(t: real, ts: seq<real>) {
    forall i | 0 <= i < |ts| :: t <= ts[i]
  }

  function Full(l: Limits, now: real): Bucket { Bucket(l.Capacity(), now) }

  ghost function AfterPolls(l: Limits, b: Bucket, ts: seq<real>): Bucket
    requires l.Rate() > 0.0
  {
    if ts == [] then b
    else Poll(l, AfterPolls(l, b, ts[..|ts| - 1]), ts[|ts| - 1]).0
  }

  /** The polls, in order, that took a token. */
  ghost function GrantTimes(l: Limits, b: Bucket, ts: seq<real>): seq<real>
    requires l.Rate() > 0.0
  {
    if ts == [] then []
    else
      var front, t := ts[..|ts| - 1], ts[|ts| - 1];
      GrantTimes(l, b, front) + if Grants(l, AfterPolls(l, b, front), t) then [t] else []
  }

  lemma AfterPollsLast(l: Limits, b: Bucket, ts: seq<real>)
    requires l.Rate() > 0.0
    ensures AfterPolls(l, b, ts).lastRefill == if ts == [] then b.lastRefill else ts[|ts| - 1]
  {
  }

  lemma {:induction false} GrantTimesFromPolls(l: Limits, b: Bucket, ts: seq<real>)
    requires l.Rate() > 0.0 && Nondecreasing(ts) && NotBefore(b.lastRefill, ts)
    ensures var g := GrantTimes(l, b, ts);
            && Nondecreasing(g) && NotBefore(b.lastRefill, g) && |g| <= |ts|
            && (g != [] ==> g[|g| - 1] <= ts[|ts| - 1])
  {
    if ts != [] {
      GrantTimesFromPolls(l, b, ts[..|ts| - 1]);
    }
  }

  lemma RefusedStep(l: Limits, b: Bucket, u: real, t: real)
    requires l.Valid() && b.lastRefill <= u <= t && !Grants(l, b, u)
    ensures Refilled(l, Poll(l, b, u).0, t) == Refilled(l, b, t)
  {
    RefillComposes(l, b, u, t);
  }

  lemma AfterPollsSnoc(l: Limits, b: Bucket, ts: seq<real>, t: real)
    requires l.Rate() > 0.0
    ensures AfterPolls(l, b, ts + [t]) == Poll(l, AfterPolls(l, b, ts), t).0
  {
    assert (ts + [t])[..|ts|] == ts;
  }

  /** Refused polls leave no trace: every later poll sees the bucket of the grants alone. */
  lemma {:induction false} RefusedPollsInvisible(l: Limits, b: Bucket, ts: seq<real>, t: real)
    requires l.Valid() && Nondecreasing(ts) && NotBefore(b.lastRefill, ts)
    requires b.lastRefill <= t && (ts != [] ==> ts[|ts| - 1] <= t)
    ensures Refilled(l, AfterPolls(l, b, ts), t) == Refilled(l, AfterPolls(l, b, GrantTimes(l, b, ts)), t)
  {
    if ts != [] {
      var front, u := ts[..|ts| - 1], ts[|ts| - 1];
      var g := GrantTimes(l, b, front);
      var before := AfterPolls(l, b, front);
      AfterPollsLast(l, b, front);
      if Grants(l, before, u) {
        RefusedPollsInvisible(l, b, front, u);
        AfterPollsSnoc(l, b, g, u);
        assert Poll(l, before, u) == Poll(l, AfterPolls(l, b, g), u);
      } else {
        RefusedPollsInvisible(l, b, front, t);
        RefusedStep(l, before, u, t);
        assert GrantTimes(l, b, ts) == g;
      }
    }
  }

  /** So dropping refused polls changes neither the next outcome nor the next bucket. */
  lemma RefusedPollsDoNotMatter(l: Limits, b: Bucket, ts: seq<real>, t: real)
    requires l.Valid() && Nondecreasing(ts) && NotBefore(b.lastRefill, ts)
    requires b.lastRefill <= t && (ts != [] ==> ts[|ts| - 1] <= t)
    ensures Poll(l, AfterPolls(l, b, ts), t) == Poll(l, AfterPolls(l, b, GrantTimes(l, b, ts)), t)
  {
    RefusedPollsInvisible(l, b, ts, t);
  }

  /** The rate contract: any stretch of k grants spans the time a bucket needs for k - burst. */
  ghost predicate Conforming(l: Limits, ts: seq<real>) {
    forall i, j | 0 <= i <= j < |ts| ::
      (j - i + 1) as real <= l.Capacity() + Earned(l, ts[i], ts[j])
  }

  /** Entry i: the most that can remain at `now` if ts[i] and all later entries took a token. */
  ghost function Bounds(l: Limits, ts: seq<real>, now: real): seq<real> {
    seq(|ts|, i requires 0 <= i < |ts| => l.Capacity() + Earned(l, ts[i], now) - (|ts| - i) as real)
  }

  /** x is the least of cap and the entries of bs. */
  ghost predicate IsLeastOf(x: real, cap: real, bs: seq<real>) {
    && (forall i | 0 <= i < |bs| :: x <= bs[i])
    && (if bs == [] then x == cap else x in bs)
  }

  /** After granting ts from full, the level is the least of the bounds. */
  ghost predicate TightLevel(l: Limits, b: Bucket, ts: seq<real>) {
    IsLeastOf(b.tokens, l.Capacity(), Bounds(l, ts, b.lastRefill))
  }

  lemma LeastAfterGrant(x: real, e: real, cap: real, bs: seq<real>, cs: seq<real>)
    requires IsLeastOf(x, cap, bs) && e >= 0.0
    requires |cs| == |bs| + 1 && cs[|bs|] == cap - 1.0
    requires forall i | 0 <= i < |bs| :: cs[i] == bs[i] + e - 1.0
    ensures IsLeastOf(Min(cap, x + e) - 1.0, cap, cs)
  {
    if bs == [] || x + e > cap {
      assert cs[|bs|] == Min(cap, x + e) - 1.0;
    } else {
      var i :| 0 <= i < |bs| && bs[i] == x;
      assert cs[i] == Min(cap, x + e) - 1.0;
    }
  }

  lemma BoundsStep(l: Limits, ts: seq<real>, last: real, t: real)
    ensures var cs := Bounds(l, ts + [t], t);
            && |cs| == |ts| + 1 && cs[|ts|] == l.Capacity() - 1.0
            && forall i | 0 <= i < |ts| :: cs[i] == Bounds(l, ts, last)[i] + Earned(l, last, t) - 1.0
  {
    var us := ts + [t];
    assert Earned(l, t, t) == 0.0;
    forall i | 0 <= i < |ts|
      ensures Bounds(l, us, t)[i] == Bounds(l, ts, last)[i] + Earned(l, last, t) - 1.0
    {
      assert us[i] == ts[i];
      EarnedAdds(l, ts[i], last, t);
    }
  }

  lemma ConformingStep(l: Limits, ts: seq<real>, t: real)
    requires Conforming(l, ts)
    ensures var us := ts + [t];
            Conforming(l, us) <==> forall i | 0 <= i < |us| :: 0.0 <= Bounds(l, us, t)[i]
  {
    var us := ts + [t];
    assert us[|ts|] == t;
    if forall i | 0 <= i < |us| :: 0.0 <= Bounds(l, us, t)[i] {
      forall i, j | 0 <= i <= j < |us|
        ensures (j - i + 1) as real <= l.Capacity() + Earned(l, us[i], us[j])
      {
        if j < |ts| {
          assert us[i] == ts[i] && us[j] == ts[j];
        } else {
          assert 0.0 <= Bounds(l, us, t)[i];
        }
      }
    }
    if Conforming(l, us) {
      forall i | 0 <= i < |us| ensures 0.0 <= Bounds(l, us, t)[i] {
        assert (|ts| - i + 1) as real <= l.Capacity() + Earned(l, us[i], us[|ts|]);
      }
    }
  }

  lemma {:induction false} ConformingPrefix(l: Limits, ts: seq<real>)
    requires Conforming(l, ts)
    ensures forall k | 0 <= k <= |ts| :: Conforming(l, ts[..k])
  {
    forall k | 0 <= k <= |ts| ensures Conforming(l, ts[..k]) {
      forall i, j | 0 <= i <= j < k
        ensures (j - i + 1) as real <= l.Capacity() + Earned(l, ts[..k][i], ts[..k][j])
      {
        assert ts[..k][i] == ts[i] && ts[..k][j] == ts[j];
      }
    }
  }

  /** A poll not before the last refill, in terms of what the bucket earned. */
  lemma PollByEarned(l: Limits, b: Bucket, t: real)
    requires l.Valid() && b.lastRefill <= t
    ensures var level := Min(l.Capacity(), b.tokens + Earned(l, b.lastRefill, t));
            && Refilled(l, b, t) == Bucket(level, t)
            && (Grants(l, b, t) <==> level >= 1.0)
            && (Grants(l, b, t) ==> Poll(l, b, t).0 == Bucket(level - 1.0, t))
  {
  }

  /** Polling the next instant of a fully granted run, in terms of the bounds. */
  lemma TightStep(l: Limits, b: Bucket, ts: seq<real>, t: real)
    requires l.Valid() && TightLevel(l, b, ts) && Conforming(l, ts) && b.lastRefill <= t
    ensures Grants(l, b, t) <==> Conforming(l, ts + [t])
    ensures Grants(l, b, t) ==> TightLevel(l, Poll(l, b, t).0, ts + [t])
  {
    var us := ts + [t];
    var level := Min(l.Capacity(), b.tokens + Earned(l, b.lastRefill, t));
    PollByEarned(l, b, t);
    NextLevelIsTight(l, b, ts, t, level);
    var cs := Bounds(l, us, t);
    assert (forall i | 0 <= i < |cs| :: 0.0 <= cs[i]) <==> level - 1.0 >= 0.0;
    ConformingStep(l, ts, t);
  }

  /** A refused poll leaves the level tight: too low for one token, it has not been capped. */
  lemma RefusedStaysTight(l: Limits, b: Bucket, ts: seq<real>, t: real)
    requires l.Valid() && TightLevel(l, b, ts) && b.lastRefill <= t && !Grants(l, b, t)
    ensures TightLevel(l, Poll(l, b, t).0, ts)
  {
    EarnedMonotone(l, b.lastRefill, t);
    PollByEarned(l, b, t);
    var e := Earned(l, b.lastRefill, t);
    var bs, cs := Bounds(l, ts, b.lastRefill), Bounds(l, ts, t);
    forall i | 0 <= i < |ts| ensures cs[i] == bs[i] + e { EarnedAdds(l, ts[i], b.lastRefill, t); }
    hide Earned, Bounds;
    if bs != [] {
      var i :| 0 <= i < |bs| && bs[i] == b.tokens;
      assert cs[i] == b.tokens + e;
    }
  }

  lemma NextLevelIsTight(l: Limits, b: Bucket, ts: seq<real>, t: real, level: real)
    requires l.Valid() && TightLevel(l, b, ts) && b.lastRefill <= t
    requires level == Min(l.Capacity(), b.tokens + Earned(l, b.lastRefill, t))
    ensures var cs := Bounds(l, ts + [t], t);
            |cs| == |ts| + 1 && IsLeastOf(level - 1.0, l.Capacity(), cs)
  {
    EarnedMonotone(l, b.lastRefill, t);
    BoundsStep(l, ts, b.lastRefill, t);
    LeastAfterGrant(b.tokens, Earned(l, b.lastRefill, t), l.Capacity(),
                    Bounds(l, ts, b.lastRefill), Bounds(l, ts + [t], t));
  }

  /**
   * The token bucket is exactly the rate contract: from a full bucket, a run of polls is
   * granted in full if and only if it conforms.
   */
  lemma {:induction false} GrantedIffConforming(l: Limits, start: real, ts: seq<real>)
    requires l.Valid() && Nondecreasing(ts) && NotBefore(start, ts)
    ensures GrantTimes(l, Full(l, start), ts) == ts <==> Conforming(l, ts)
    ensures Conforming(l, ts) ==> TightLevel(l, AfterPolls(l, Full(l, start), ts), ts)
  {
    var b := Full(l, start);
    if ts != [] {
      var front, t := ts[..|ts| - 1], ts[|ts| - 1];
      GrantedIffConforming(l, start, front);
      GrantTimesFromPolls(l, b, front);
      AfterPollsLast(l, b, front);
      assert front + [t] == ts;
      if Conforming(l, ts) {
        ConformingPrefix(l, ts);
      }
      if Conforming(l, front) {
        TightStep(l, AfterPolls(l, b, front), front, t);
      } else {
        var granted := if Grants(l, AfterPolls(l, b, front), t) then 1 else 0;
        assert |GrantTimes(l, b, ts)| == |GrantTimes(l, b, front)| + granted;
      }
    }
  }

  lemma EarnedIs(l: Limits, from: real, to: real)
    ensures Earned(l, from, to) == l.requestsPerMinute / 60.0 * (to - from)
  {
    var rate, time := l.Rate(), to - from;
    assert time * rate == rate * time;
  }

  lemma ConformingIs(l: Limits, ts: seq<real>)
    ensures Conforming(l, ts) <==> forall i, j | 0 <= i <= j < |ts| ::
      (j - i + 1) as real <= l.burst as real + l.requestsPerMinute / 60.0 * (ts[j] - ts[i])
  {
    forall i, j | 0 <= i <= j < |ts| ensures Earned(l, ts[i], ts[j]) == l.requestsPerMinute / 60.0 * (ts[j] - ts[i]) {
      EarnedIs(l, ts[i], ts[j]);
    }
    hide Earned;
  }

  /** In the settings' numbers: a full bucket grants all of ts exactly if every stretch of it keeps to the rate. */
  lemma GrantedIffWithinRate(l: Limits, start: real, ts: seq<real>)
    requires l.Valid() && Nondecreasing(ts) && NotBefore(start, ts)
    ensures GrantTimes(l, Bucket(l.burst as real, start), ts) == ts <==> forall i, j | 0 <= i <= j < |ts| ::
      (j - i + 1) as real <= l.burst as real + l.requestsPerMinute / 60.0 * (ts[j] - ts[i])
  {
    GrantedIffConforming(l, start, ts);
    ConformingIs(l, ts);
    hide GrantTimes, Conforming, TightLevel;
  }

  /** The window bound that conforming runs obey. */
  lemma ConformingWindow(l: Limits, ts: seq<real>, s: real, t: real)
    requires l.Valid() && Nondecreasing(ts) && Conforming(l, ts) && s <= t
    ensures |InWindow(ts, s, t)| as real <= l.Capacity() + Earned(l, s, t)
  {
    var w := InWindow(ts, s, t);
    EarnedMonotone(l, s, t);
    if w != {} {
      var i := Least(w);
      var j := Greatest(w);
      IntervalSize(i, j + 1, w);
      EarnedAdds(l, s, ts[i], ts[j]);
      EarnedAdds(l, s, ts[j], t);
      EarnedMonotone(l, s, ts[i]);
      EarnedMonotone(l, ts[j], t);
      assert (j - i + 1) as real <= l.Capacity() + Earned(l, ts[i], ts[j]);
    }
  }

  // ---------------------------------------------------------------- the governor object

  datatype SemaphoreError = ReleasedTooManyTimes

  /** `acquire` on so many free slots: one less, or nothing to take yet. */
  function TakeSlot(free: nat): Option<nat> {
    if free == 0 then None else Some(free - 1)
  }

  /** `BoundedSemaphore.release`, which refuses to exceed its initial value. */
  function ReturnSlot(initial: nat, free: nat): Result<nat, SemaphoreError> {
    if free >= initial then Err(ReleasedTooManyTimes) else Ok(free + 1)
  }

  class LlmRequestGovernor {
    const limits: Limits
    var tokens: real
    var lastRefill: real
    var freeSlots: nat

    ghost predicate Valid()
      reads this
    {
      && limits.Valid() && ValidBucket(limits, Bucket(tokens, lastRefill))
      && freeSlots <= limits.maxConcurrency
    }

    constructor (limits: Limits, now: real)
      requires limits.Valid()
      ensures Valid() && this.limits == limits
      ensures Bucket(tokens, lastRefill) == Full(limits, now) && freeSlots == limits.maxConcurrency
    {
      this.limits := limits;
      tokens, lastRefill := limits.burst as real, now;
      freeSlots := limits.maxConcurrency;
    }

    method TakeTokenOrDelay(now: real) returns (delay: Option<real>)
      requires Valid()
      modifies this`tokens, this`lastRefill
      ensures Valid()
      ensures (Bucket(tokens, lastRefill), delay) == Poll(limits, old(Bucket(tokens, lastRefill)), now)
    {
      var elapsed := Max(0.0, now - lastRefill);
      assert elapsed * limits.Rate() >= 0.0;
      tokens := Min(limits.Capacity(), tokens + elapsed * limits.Rate());
      lastRefill := now;
      assert Bucket(tokens, lastRefill) == Refilled(limits, old(Bucket(tokens, lastRefill)), now);
      if tokens >= 1.0 {
        tokens := tokens - 1.0;
        return None;
      }
      delay := Some((1.0 - tokens) / limits.Rate());
    }

    /**
     * The token wait of a caller that is alone: `overshoot` is how late its sleep wakes it.
     * It sleeps at most once, and exactly as long as the bucket needs.
     */
    method AcquireTokenAlone(now: real, overshoot: real) returns (grantedAt: real, sleeps: nat)
      requires Valid() && lastRefill <= now && overshoot >= 0.0
      modifies this`tokens, this`lastRefill
      ensures Valid()
      ensures sleeps == (if Grants(limits, old(Bucket(tokens, lastRefill)), now) then 0 else 1)
      ensures now <= grantedAt <= now + 60.0 / limits.requestsPerMinute + overshoot
      ensures sleeps == 0 ==> grantedAt == now
      ensures Bucket(tokens, lastRefill) == Poll(limits, old(Bucket(tokens, lastRefill)), grantedAt).0
      ensures Grants(limits, old(Bucket(tokens, lastRefill)), grantedAt)
    {
      ghost var before := Bucket(tokens, lastRefill);
      grantedAt, sleeps := now, 0;
      assert 60.0 / limits.requestsPerMinute > 0.0;
      var delay := TakeTokenOrDelay(grantedAt);
      while delay.Some?
        invariant Valid() && sleeps <= 1
        invariant sleeps == 0 ==> grantedAt == now && (Bucket(tokens, lastRefill), delay) == Poll(limits, before, now)
        invariant sleeps == 1 ==> delay.None? && !Grants(limits, before, now)
        invariant sleeps == 1 ==> Grants(limits, before, grantedAt)
        invariant sleeps == 1 ==> now <= grantedAt <= now + 60.0 / limits.requestsPerMinute + overshoot
        invariant sleeps == 1 ==> Bucket(tokens, lastRefill) == Poll(limits, before, grantedAt).0
        decreases 1 - sleeps
      {
        var wake := grantedAt + delay.value + overshoot;
        DelayIsExact(limits, before, now, wake);
        RefillComposes(limits, before, now, wake);
        grantedAt, sleeps := wake, sleeps + 1;
        delay := TakeTokenOrDelay(grantedAt);
      }
    }

    /** The non-blocking acquire, which the asynchronous caller repeats until it succeeds. */
    method TryAcquireSlot() returns (acquired: bool)
      requires Valid()
      modifies this`freeSlots
      ensures Valid()
      ensures acquired <==> TakeSlot(old(freeSlots)).Some?
      ensures freeSlots == if acquired then TakeSlot(old(freeSlots)).value else old(freeSlots)
    {
      acquired := freeSlots > 0;
      if acquired { freeSlots := freeSlots - 1; }
    }

    method ReleaseSlot() returns (r: Result<(), SemaphoreError>)
      requires Valid()
      modifies this`freeSlots
      ensures Valid()
      ensures match ReturnSlot(limits.maxConcurrency, old(freeSlots))
              case Ok(free) => r == Ok(()) && freeSlots == free
              case Err(e) => r == Err(e) && freeSlots == old(freeSlots)
    {
      if freeSlots >= limits.maxConcurrency { return Err(ReleasedTooManyTimes); }
      freeSlots := freeSlots + 1;
      r := Ok(());
    }
  }
}
