/**
 * The merge rounds of the tender tool: the chunk results are merged in batches, round by
 * round, until one result is left.  The model call that merges a batch is a `Merged` node.
 */
module MergeLoop {
  import opened Outcomes

  datatype Analysis = Chunk(index: nat) | Merged(batch: seq<Analysis>)

  /** What stops the tool: a zero batch size, or no result to take. */
  datatype MergeError = ZeroRangeStep | NoResult

  function Leaves(items: seq<Analysis>): seq<nat>
  {
    if items == [] then [] else LeavesOf(items[0]) + Leaves(items[1..])
  }

  function LeavesOf(a: Analysis): seq<nat>
  {
    match a
    case Chunk(i) => [i]
    case Merged(batch) => Leaves(batch)
  }

  /** Merge calls made to build the results. */
  function Calls(items: seq<Analysis>): nat {
    if items == [] then 0 else CallsOf(items[0]) + Calls(items[1..])
  }

  function CallsOf(a: Analysis): nat {
    match a
    case Chunk(_) => 0
    case Merged(batch) => 1 + Calls(batch)
  }

  /** No batch anywhere in the tree is empty or larger than the limit. */
  ghost predicate BatchesWithin(items: seq<Analysis>, limit: nat) {
    items == [] || (
      && BatchWithin(items[0], limit)
      && BatchesWithin(items[1..], limit))
  }

  ghost predicate BatchWithin(a: Analysis, limit: nat) {
    match a
    case Chunk(_) => true
    case Merged(batch) => 1 <= |batch| <= limit && BatchesWithin(batch, limit)
  }

  lemma {:induction false} LeavesAppend(a: seq<Analysis>, b: seq<Analysis>)
    ensures Leaves(a + b) == Leaves(a) + Leaves(b)
    decreases |a|
  {
    if a == [] {
      assert a + b == b;
    } else {
      LeavesAppend(a[1..], b);
      assert (a + b)[1..] == a[1..] + b;
    }
  }

  lemma {:induction false} CallsAppend(a: seq<Analysis>, b: seq<Analysis>)
    ensures Calls(a + b) == Calls(a) + Calls(b)
    decreases |a|
  {
    if a == [] {
      assert a + b == b;
    } else {
      CallsAppend(a[1..], b);
      assert (a + b)[1..] == a[1..] + b;
    }
  }

  lemma {:induction false} BatchesAppend(a: seq<Analysis>, b: seq<Analysis>, limit: nat)
    ensures BatchesWithin(a + b, limit) <==> BatchesWithin(a, limit) && BatchesWithin(b, limit)
    decreases |a|
  {
    if a == [] {
      assert a + b == b;
    } else {
      BatchesAppend(a[1..], b, limit);
      assert (a + b)[1..] == a[1..] + b;
    }
  }

  function Identity(n: nat): seq<nat> { seq(n, i => i) }

  function Chunks(n: nat): (r: seq<Analysis>)
    ensures |r| == n
  {
    seq(n, (i: nat) => Chunk(i))
  }

  lemma {:induction false} ChunkFacts(n: nat, limit: nat)
    ensures Leaves(Chunks(n)) == Identity(n) && Calls(Chunks(n)) == 0 && BatchesWithin(Chunks(n), limit)
  {
    if n > 0 {
      var last := [Chunk(n - 1)];
      ChunkFacts(n - 1, limit);
      assert Chunks(n) == Chunks(n - 1) + last;
      LeavesAppend(Chunks(n - 1), last);
      CallsAppend(Chunks(n - 1), last);
      BatchesAppend(Chunks(n - 1), last, limit);
      assert Leaves(last) == [n - 1] + Leaves([]);
      assert Identity(n) == Identity(n - 1) + [n - 1];
    }
  }

  // ---------------------------------------------------------------- one round

  /** Every batch of consecutive items becomes one merged item. */
  function RoundOf(current: seq<Analysis>, size: nat): seq<Analysis>
    requires size >= 1
  {
    if current == [] then []
    else
      var end := if |current| <= size then |current| else size;
      [Merged(current[..end])] + RoundOf(current[end..], size)
  }

  /** A round never lengthens the list, and halves it when batches hold two or more. */
  ghost predicate Halved(before: nat, after: nat, size: nat) {
    && 1 <= after <= before
    && (size >= 2 ==> 2 * after <= before + 1)
    && (size == 1 ==> after == before)
  }

  /** A round keeps the leaves in order, and pays one call for each batch, none of which is too large. */
  lemma {:induction false} RoundFacts(current: seq<Analysis>, size: nat)
    requires size >= 1
    ensures var merged := RoundOf(current, size);
      && Leaves(merged) == Leaves(current)
      && Calls(merged) == Calls(current) + |merged|
      && (BatchesWithin(current, size) ==> BatchesWithin(merged, size))
      && (current != [] ==> Halved(|current|, |merged|, size))
    decreases |current|
  {
    if current != [] {
      var end := if |current| <= size then |current| else size;
      var batch, rest := current[..end], current[end..];
      RoundFacts(rest, size);
      assert current == batch + rest;
      assert RoundOf(current, size) == [Merged(batch)] + RoundOf(rest, size);
      LeavesAppend(batch, rest);
      CallsAppend(batch, rest);
      BatchesAppend(batch, rest, size);
      OneBatch(batch, RoundOf(rest, size), size);
    }
  }

  /** a merges the items from start on, as many as there are up to the size. */
  ghost predicate Merges(a: Analysis, current: seq<Analysis>, size: nat, start: nat) {
    && start < |current|
    && a == Merged(current[start..if start + size <= |current| then start + size else |current|])
  }

  /** Batch i merges the items from i * size on. */
  lemma {:induction false} BatchesAt(current: seq<Analysis>, size: nat, i: nat, start: nat)
    requires size >= 1 && i < |RoundOf(current, size)| && start == i * size
    ensures Merges(RoundOf(current, size)[i], current, size, start)
    decreases i
  {
    if i > 0 {
      BatchBefore(size, i, start);
      var rest := current[size..];
      assert RoundOf(current, size)[i] == RoundOf(rest, size)[i - 1];
      BatchesAt(rest, size, i - 1, start - size);
      hide RoundOf;
      MergesFurther(RoundOf(rest, size)[i - 1], current, size, start - size);
    }
  }

  lemma BatchBefore(size: nat, i: nat, start: nat)
    requires i > 0 && start == i * size
    ensures start >= size && start - size == (i - 1) * size
  {
    assert i * size == (i - 1) * size + size;
  }

  lemma MergesFurther(a: Analysis, current: seq<Analysis>, size: nat, start: nat)
    requires size < |current| && Merges(a, current[size..], size, start)
    ensures Merges(a, current, size, start + size)
  {
    var rest, further := current[size..], start + size;
    assert rest[start..if start + size <= |rest| then start + size else |rest|] ==
      current[further..if further + size <= |current| then further + size else |current|];
  }

  /** And there are no more batches than that takes: the number of items by the size, rounded up. */
  lemma {:induction false} BatchCount(current: seq<Analysis>, size: nat)
    requires size >= 1 && current != []
    ensures var r := |RoundOf(current, size)|; 1 <= r && (r - 1) * size < |current| <= r * size
    decreases |current|
  {
    if |current| > size {
      BatchCount(current[size..], size);
      var r := |RoundOf(current[size..], size)|;
      assert (r + 1 - 1) * size == (r - 1) * size + size && (r + 1) * size == r * size + size;
    }
  }

  lemma OneBatch(batch: seq<Analysis>, merged: seq<Analysis>, size: nat)
    requires 1 <= |batch| <= size
    ensures Leaves([Merged(batch)] + merged) == Leaves(batch) + Leaves(merged)
    ensures Calls([Merged(batch)] + merged) == 1 + Calls(batch) + Calls(merged)
    ensures BatchesWithin([Merged(batch)] + merged, size) <==> BatchesWithin(batch, size) && BatchesWithin(merged, size)
  {
    assert ([Merged(batch)] + merged)[1..] == merged;
  }

  lemma NextBatch(current: seq<Analysis>, size: nat, start: nat, merged: seq<Analysis>) returns (end: nat)
    requires size >= 1 && start < |current|
    ensures end == if start + size <= |current| then start + size else |current|
    ensures merged + RoundOf(current[start..], size) ==
        (merged + [Merged(current[start..end])]) + RoundOf(current[end..], size)
  {
    end := if start + size <= |current| then start + size else |current|;
    var rest := current[start..];
    assert rest[..end - start] == current[start..end] && rest[end - start..] == current[end..];
    var one, later := [Merged(current[start..end])], RoundOf(current[end..], size);
    assert RoundOf(rest, size) == one + later;
    hide RoundOf;
    assert merged + (one + later) == (merged + one) + later;
  }

  method MergeRound(current: seq<Analysis>, size: nat) returns (merged: seq<Analysis>)
    requires size >= 1
    ensures merged == RoundOf(current, size)
  {
    merged := [];
    var batchIndex := 0;
    while batchIndex < |current|
      invariant batchIndex <= |current|
      invariant merged + RoundOf(current[batchIndex..], size) == RoundOf(current, size)
      decreases |current| - batchIndex
    {
      hide RoundOf;
      var end := if batchIndex + size <= |current| then batchIndex + size else |current|;
      ghost var same := NextBatch(current, size, batchIndex, merged);
      merged := merged + [Merged(current[batchIndex..end])];
      batchIndex := end;
    }
  }

  // ---------------------------------------------------------------- the loop

  /** One pass of the loop body.  A zero step is an error; over a negative one `range` is empty. */
  function Pass(current: seq<Analysis>, mergeItems: int): Result<seq<Analysis>, MergeError> {
    if mergeItems == 0 then Err(ZeroRangeStep)
    else if mergeItems < 0 then Ok([])
    else Ok(RoundOf(current, mergeItems))
  }

  /** What the loop holds after so many rounds, if it has not ended before. */
  function AfterRounds(n: nat, mergeItems: int, rounds: nat): Result<seq<Analysis>, MergeError> {
    if rounds == 0 then Ok(Chunks(n))
    else
      var before := AfterRounds(n, mergeItems, rounds - 1);
      if before.Ok? && |before.value| > 1 then Pass(before.value, mergeItems) else before
  }

  ghost predicate EndedAfter(n: nat, mergeItems: int, rounds: nat) {
    var r := AfterRounds(n, mergeItems, rounds);
    r.Err? || |r.value| <= 1
  }

  /** What every state of the loop satisfies. */
  lemma {:induction false} LoopKeeps(n: nat, mergeItems: int, rounds: nat)
    ensures var r := AfterRounds(n, mergeItems, rounds);
      && (r.Err? ==> n >= 2 && mergeItems == 0 && r.error == ZeroRangeStep)
      && (r.Ok? && r.value == [] ==> n == 0 || (n >= 2 && mergeItems < 0))
      && (r.Ok? && r.value != [] ==> Leaves(r.value) == Identity(n) && |r.value| <= n)
      && (r.Ok? && |r.value| == 1 ==> n == 1 || (n >= 2 && mergeItems >= 2))
      && (r.Ok? && (n <= 1 || mergeItems != 1) ==> Calls(r.value) + 2 * |r.value| <= 2 * n)
      && (r.Ok? && mergeItems >= 1 ==> BatchesWithin(r.value, mergeItems))
  {
    if rounds == 0 {
      ChunkFacts(n, if mergeItems >= 0 then mergeItems else 0);
    } else {
      LoopKeeps(n, mergeItems, rounds - 1);
      var before := AfterRounds(n, mergeItems, rounds - 1);
      if before.Ok? && |before.value| > 1 && mergeItems >= 1 { RoundFacts(before.value, mergeItems); }
    }
  }

  /** With batches of two or more, every round shortens what is left. */
  lemma {:induction false} RoundsShrink(n: nat, mergeItems: int, rounds: nat)
    requires mergeItems >= 2 || mergeItems <= 0
    ensures EndedAfter(n, mergeItems, rounds) || |AfterRounds(n, mergeItems, rounds).value| + rounds <= n
  {
    if rounds > 0 {
      RoundsShrink(n, mergeItems, rounds - 1);
      if !EndedAfter(n, mergeItems, rounds - 1) && mergeItems >= 2 {
        RoundFacts(AfterRounds(n, mergeItems, rounds - 1).value, mergeItems);
      }
    }
  }

  /** With batches of one, any number of rounds leaves as many results as there were chunks. */
  lemma {:induction false} SingletonRoundsStall(n: nat, rounds: nat)
    requires n >= 2
    ensures AfterRounds(n, 1, rounds).Ok? && |AfterRounds(n, 1, rounds).value| == n
  {
    if rounds > 0 {
      SingletonRoundsStall(n, rounds - 1);
      RoundFacts(AfterRounds(n, 1, rounds - 1).value, 1);
    }
  }

  lemma EndedInTime(n: nat, mergeItems: int, rounds: nat)
    requires n <= 1 || mergeItems != 1
    ensures rounds >= n ==> EndedAfter(n, mergeItems, rounds)
  {
    if n <= 1 {
      LoopKeeps(n, mergeItems, rounds);
    } else {
      RoundsShrink(n, mergeItems, rounds);
    }
  }

  /** The loop ends, after at most n rounds, if and only if there is nothing to merge or no batch holds exactly one. */
  lemma LoopEndsIff(n: nat, mergeItems: int)
    ensures (exists rounds: nat :: EndedAfter(n, mergeItems, rounds)) <==> n <= 1 || mergeItems != 1
    ensures n <= 1 || mergeItems != 1 ==> EndedAfter(n, mergeItems, n)
  {
    if n <= 1 || mergeItems != 1 {
      EndedInTime(n, mergeItems, n);
    } else {
      forall rounds: nat ensures !EndedAfter(n, mergeItems, rounds) { SingletonRoundsStall(n, rounds); }
    }
  }

  /** The smallest input on which the loop never ends: two chunks in batches of one. */
  lemma TwoChunksInBatchesOfOne(rounds: nat)
    ensures AfterRounds(2, 1, rounds).Ok? && |AfterRounds(2, 1, rounds).value| == 2 && !EndedAfter(2, 1, rounds)
  {
    SingletonRoundsStall(2, rounds);
  }

  function Power(base: nat, exponent: nat): nat {
    if exponent == 0 then 1 else base * Power(base, exponent - 1)
  }

  lemma RoundedUpTwice(n: nat, p: nat, items: nat, size: nat, batches: nat)
    requires items >= 1 && batches >= 1 && (items - 1) * p < n <= items * p
    requires (batches - 1) * size < items <= batches * size
    ensures (batches - 1) * (size * p) < n <= batches * (size * p)
  {
    MonotoneIn(p, (batches - 1) * size, items - 1);
    MonotoneIn(p, items, batches * size);
    assert (batches - 1) * (size * p) == (batches - 1) * size * p;
    assert batches * (size * p) == batches * size * p;
  }

  lemma MonotoneIn(p: nat, a: nat, b: nat)
    requires a <= b
    ensures a * p <= b * p
  {
    assert (b - a) * p >= 0;
  }

  /** After k rounds as many results are left as n divided by size^k, rounded up. */
  lemma {:induction false} ResultsLeft(n: nat, mergeItems: nat, k: nat)
    requires n >= 1 && mergeItems >= 1
    ensures AfterRounds(n, mergeItems, k).Ok?
    ensures var left, p := |AfterRounds(n, mergeItems, k).value|, Power(mergeItems, k);
      left >= 1 && (left - 1) * p < n <= left * p
    decreases k
  {
    if k > 0 {
      ResultsLeft(n, mergeItems, k - 1);
      var current, p := AfterRounds(n, mergeItems, k - 1).value, Power(mergeItems, k - 1);
      if |current| > 1 {
        BatchCount(current, mergeItems);
        RoundedUpTwice(n, p, |current|, mergeItems, |RoundOf(current, mergeItems)|);
      } else {
        MonotoneIn(p, 1, mergeItems);
      }
    }
  }

  /** So the loop has ended after k rounds if and only if size^k is no less than n. */
  lemma RoundsNeeded(n: nat, mergeItems: nat, k: nat)
    requires n >= 1 && mergeItems >= 1
    ensures EndedAfter(n, mergeItems, k) <==> n <= Power(mergeItems, k)
  {
    ResultsLeft(n, mergeItems, k);
    var left, p := |AfterRounds(n, mergeItems, k).value|, Power(mergeItems, k);
    if left >= 2 { MonotoneIn(p, 1, left - 1); }
  }

  /** What a round of the loop merges: every batch but the last holds exactly as many results as asked for. */
  lemma LoopMergesFullBatches(n: nat, mergeItems: nat, k: nat, i: nat)
    requires n >= 1 && mergeItems >= 1 && !EndedAfter(n, mergeItems, k)
    ensures var before, after := AfterRounds(n, mergeItems, k), AfterRounds(n, mergeItems, k + 1);
      && before.Ok? && after.Ok?
      && (i < |after.value| ==>
            var start := i * mergeItems;
            && start < |before.value|
            && (i + 1 < |after.value| ==>
                  && start + mergeItems <= |before.value|
                  && after.value[i] == Merged(before.value[start..start + mergeItems]))
            && (i + 1 == |after.value| ==> after.value[i] == Merged(before.value[start..])))
  {
    ResultsLeft(n, mergeItems, k);
    var before := AfterRounds(n, mergeItems, k).value;
    assert AfterRounds(n, mergeItems, k + 1) == Ok(RoundOf(before, mergeItems));
    hide AfterRounds, RoundOf;
    if i < |RoundOf(before, mergeItems)| { FullBatch(before, mergeItems, i, i * mergeItems); }
  }

  lemma FullBatch(current: seq<Analysis>, size: nat, i: nat, start: nat)
    requires size >= 1 && current != [] && i < |RoundOf(current, size)| && start == i * size
    ensures start < |current|
    ensures i + 1 < |RoundOf(current, size)| ==>
      start + size <= |current| && RoundOf(current, size)[i] == Merged(current[start..start + size])
    ensures i + 1 == |RoundOf(current, size)| ==> RoundOf(current, size)[i] == Merged(current[start..])
  {
    BatchCount(current, size);
    BatchesAt(current, size, i, start);
    hide RoundOf;
    EndOfBatch(size, i, start, |RoundOf(current, size)|, |current|);
  }

  lemma EndOfBatch(size: nat, i: nat, start: nat, batches: nat, items: nat)
    requires start == i * size && i < batches && (batches - 1) * size < items <= batches * size
    ensures i + 1 < batches ==> start + size < items
    ensures i + 1 == batches ==> items <= start + size
  {
    assert (i + 1) * size == start + size;
    if i + 1 < batches { MonotoneIn(size, i + 1, batches - 1); }
  }

  lemma {:induction false} EndedStays(n: nat, mergeItems: int, k: nat, rounds: nat)
    requires k <= rounds && EndedAfter(n, mergeItems, k)
    ensures AfterRounds(n, mergeItems, rounds) == AfterRounds(n, mergeItems, k)
  {
    if k < rounds { EndedStays(n, mergeItems, k, rounds - 1); }
  }

  /** Where the loop of `main` is after at most so many rounds. */
  datatype Progress = Running(current: seq<Analysis>) | Done(analysis: Analysis) | Failed(error: MergeError)

  /** The merge loop of `main` over n chunk results, followed for at most so many rounds. */
  method MergeAll(n: nat, mergeItems: int, rounds: nat) returns (p: Progress, mergeCalls: nat)
    ensures p.Running? <==> !EndedAfter(n, mergeItems, rounds)
    ensures p.Running? ==> AfterRounds(n, mergeItems, rounds) == Ok(p.current)
    ensures rounds >= n ==> (p.Running? <==> n >= 2 && mergeItems == 1)
    ensures p.Failed? ==> n == 0 || (n >= 2 && mergeItems <= 0)
    ensures p.Failed? ==> p.error == if n >= 2 && mergeItems == 0 then ZeroRangeStep else NoResult
    ensures p.Done? ==> n == 1 || (n >= 2 && mergeItems >= 2)
    ensures p.Done? ==> LeavesOf(p.analysis) == Identity(n) && (n >= 2 ==> BatchWithin(p.analysis, mergeItems))
    ensures p.Done? ==> mergeCalls == CallsOf(p.analysis) <= 2 * n - 2
  {
    mergeCalls := 0;
    var current := Chunks(n);
    ChunkFacts(n, 0);
    var k := 0;
    if n >= 2 && mergeItems == 1 { SingletonRoundsStall(n, rounds); } else { EndedInTime(n, mergeItems, rounds); }
    while |current| > 1 && k < rounds
      invariant k <= rounds && AfterRounds(n, mergeItems, k) == Ok(current) && Calls(current) == mergeCalls
      invariant mergeItems < 0 ==> mergeCalls == 0
    {
      k := k + 1;
      if mergeItems == 0 {
        LoopKeeps(n, mergeItems, k);
        EndedStays(n, mergeItems, k, rounds);
        return Failed(ZeroRangeStep), 0;
      }
      var merged: seq<Analysis> := [];
      if mergeItems > 0 {
        merged := MergeRound(current, mergeItems);
        RoundFacts(current, mergeItems);
        mergeCalls := mergeCalls + |merged|;
      }
      current := merged;
    }
    LoopKeeps(n, mergeItems, k);
    if |current| > 1 { return Running(current), mergeCalls; }
    EndedStays(n, mergeItems, k, rounds);
    if current == [] { return Failed(NoResult), mergeCalls; }
    assert current == [current[0]] && current[1..] == [];
    assert Leaves(current) == LeavesOf(current[0]) + Leaves([]);
    p := Done(current[0]);
  }
}
