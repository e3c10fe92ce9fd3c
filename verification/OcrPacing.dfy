/**
 * The OCR request slots.  The rate-limit lock serialises callers; `nows` are the clock readings
 * they make under it, in lock order.  Each caller sleeps until its own scheduled instant.
 */
module OcrPacing {
  import opened FiniteSets
  import opened Instants

  class RequestSlots {
    const interval: real
    var nextRequestAt: real

    constructor (interval: real)
      ensures this.interval == Max(0.0, interval) && nextRequestAt == 0.0
    {
      this.interval := Max(0.0, interval);
      nextRequestAt := 0.0;
    }

    /** `_reserve_request_slot`: returns the sleep; a non-positive interval reserves nothing. */
    method ReserveRequestSlot(now: real) returns (waitSeconds: real)
      modifies this`nextRequestAt
      ensures interval <= 0.0 ==> waitSeconds == 0.0 && nextRequestAt == old(nextRequestAt)
      ensures interval > 0.0 ==> (waitSeconds, nextRequestAt) == Reserve(old(nextRequestAt), interval, now)
    {
      if interval <= 0.0 { return 0.0; }
      waitSeconds := Max(0.0, nextRequestAt - now);
      var scheduledAt := Max(now, nextRequestAt);
      nextRequestAt := scheduledAt + interval;
    }
  }

  /** One reservation: how long to sleep, and the next free instant it leaves behind. */
  function Reserve(next: real, interval: real, now: real): (real, real) {
    (Max(0.0, next - now), Max(now, next) + interval)
  }

  ghost function NextFree(next: real, interval: real, nows: seq<real>): real {
    if nows == [] then next
    else Reserve(NextFree(next, interval, nows[..|nows| - 1]), interval, nows[|nows| - 1]).1
  }

  /** When the callers of a run wake, in lock order. */
  ghost function Schedule(next: real, interval: real, nows: seq<real>): (starts: seq<real>)
    ensures |starts| == |nows|
  {
    if nows == [] then []
    else
      var n := |nows| - 1;
      Schedule(next, interval, nows[..n])
      + [nows[n] + Reserve(NextFree(next, interval, nows[..n]), interval, nows[n]).0]
  }

  /** A schedule a pacer may produce: nobody before asking, the first not before `next`, all spaced. */
  ghost predicate Paced(starts: seq<real>, next: real, interval: real, nows: seq<real>) {
    && |starts| == |nows|
    && (forall i | 0 <= i < |nows| :: nows[i] <= starts[i])
    && (nows != [] ==> next <= starts[0])
    && (forall i | 0 < i < |nows| :: starts[i - 1] + interval <= starts[i])
  }

  /** The schedule is paced, and the next free instant is one interval after its last. */
  lemma {:induction false} ScheduleIsPaced(next: real, interval: real, nows: seq<real>)
    requires interval > 0.0
    ensures Paced(Schedule(next, interval, nows), next, interval, nows)
    ensures NextFree(next, interval, nows)
            == if nows == [] then next else Schedule(next, interval, nows)[|nows| - 1] + interval
  {
    if nows != [] {
      var n := |nows| - 1;
      ScheduleIsPaced(next, interval, nows[..n]);
      assert Schedule(next, interval, nows)[..n] == Schedule(next, interval, nows[..n]);
    }
  }

  /** No paced schedule starts any request earlier than the code does. */
  lemma {:induction false} ScheduleIsEarliest(next: real, interval: real, nows: seq<real>, other: seq<real>)
    requires interval > 0.0 && Paced(other, next, interval, nows)
    ensures forall i | 0 <= i < |nows| :: Schedule(next, interval, nows)[i] <= other[i]
  {
    if nows != [] {
      var n := |nows| - 1;
      var s := Schedule(next, interval, nows);
      ScheduleIsPaced(next, interval, nows[..n]);
      ScheduleIsEarliest(next, interval, nows[..n], other[..n]);
      assert s[..n] == Schedule(next, interval, nows[..n]);
      assert s[n] == Max(nows[n], NextFree(next, interval, nows[..n]));
      hide Schedule, NextFree;
      assert n > 0 ==> other[..n][n - 1] == other[n - 1];
      forall i | 0 <= i < n ensures s[i] <= other[i] { assert s[i] == s[..n][i] && other[..n][i] == other[i]; }
    }
  }

  /** Any two scheduled instants are as many intervals apart as there are positions between them. */
  lemma {:induction false} Spread(starts: seq<real>, interval: real, i: nat, j: nat)
    requires interval > 0.0 && i <= j < |starts|
    requires forall k | 0 < k < |starts| :: starts[k - 1] + interval <= starts[k]
    ensures starts[i] + (j - i) as real * interval <= starts[j]
    ensures i < j ==> starts[i] < starts[j]
    decreases j
  {
    if i < j {
      Spread(starts, interval, i, j - 1);
      assert (j - i) as real * interval == (j - 1 - i) as real * interval + interval;
    }
  }

  lemma NegativeProduct(x: real, r: real)
    requires r > 0.0 && x < 0.0
    ensures x * r < 0.0
  {
  }

  lemma FloorBound(n: nat, length: real, interval: real)
    requires interval > 0.0 && n as real * interval <= length
    ensures n <= (length / interval).Floor
  {
    var q := length / interval;
    assert q * interval == length;
    if q < n as real { NegativeProduct(q - n as real, interval); }
  }

  lemma WindowSpan(starts: seq<real>, interval: real, from: real, to: real) returns (n: nat)
    requires interval > 0.0 && from <= to
    requires forall k | 0 < k < |starts| :: starts[k - 1] + interval <= starts[k]
    ensures |InWindow(starts, from, to)| <= n + 1 && n as real * interval <= to - from
  {
    var w := InWindow(starts, from, to);
    n := 0;
    if w != {} {
      var i := Least(w);
      var j := Greatest(w);
      IntervalSize(i, j + 1, w);
      Spread(starts, interval, i, j);
      n := j - i;
    }
  }

  /** Any closed window of the given length holds at most floor(length / interval) + 1 instants. */
  lemma WindowBound(next: real, interval: real, nows: seq<real>, from: real, length: real)
    requires interval > 0.0 && length >= 0.0
    ensures |InWindow(Schedule(next, interval, nows), from, from + length)| <= (length / interval).Floor + 1
  {
    ScheduleIsPaced(next, interval, nows);
    var n := WindowSpan(Schedule(next, interval, nows), interval, from, from + length);
    FloorBound(n, length, interval);
  }
}
