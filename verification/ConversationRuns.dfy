/** Whole runs of concurrent conversation writes, state by state. */
module ConversationRuns {
  import opened Outcomes
  import opened ConversationWrites

  // ---------------------------------------------------------------- the states of a run

  lemma {:induction false} PrefixRuns(u: Setup, s: System, actions: seq<Action>, k: nat)
    requires IsRun(u, s, actions) && k <= |actions|
    ensures IsRun(u, s, actions[..k])
    decreases |actions|
  {
    if k > 0 {
      PrefixRuns(u, Next(u, s, actions[0]).value, actions[1..], k - 1);
      assert actions[..k][1..] == actions[1..][..k - 1];
    }
  }

  /** The state after the first k actions. */
  ghost function StateAt(u: Setup, actions: seq<Action>, k: nat): System
    requires IsRun(u, EmptySystem, actions) && k <= |actions|
  {
    PrefixRuns(u, EmptySystem, actions, k);
    After(u, EmptySystem, actions[..k])
  }

  lemma {:induction false} LastAction(u: Setup, s: System, actions: seq<Action>)
    requires IsRun(u, s, actions) && actions != [] && IsRun(u, s, actions[..|actions| - 1])
    ensures Next(u, After(u, s, actions[..|actions| - 1]), actions[|actions| - 1]) == Some(After(u, s, actions))
    decreases |actions|
  {
    if |actions| > 1 {
      var n := |actions| - 1;
      assert actions[..n][1..] == actions[1..][..n - 1];
      LastAction(u, Next(u, s, actions[0]).value, actions[1..]);
    }
  }

  lemma StateStep(u: Setup, actions: seq<Action>, k: nat)
    requires IsRun(u, EmptySystem, actions) && k < |actions|
    ensures Next(u, StateAt(u, actions, k), actions[k]) == Some(StateAt(u, actions, k + 1))
    ensures Invariant(u, StateAt(u, actions, k)) && Invariant(u, StateAt(u, actions, k + 1))
  {
    PrefixRuns(u, EmptySystem, actions, k);
    PrefixRuns(u, EmptySystem, actions, k + 1);
    EmptyIsGood(u);
    RunKeeps(u, EmptySystem, actions[..k]);
    RunKeeps(u, EmptySystem, actions[..k + 1]);
    assert actions[..k + 1][..k] == actions[..k];
    hide Invariant, Next, After, IsRun;
    LastAction(u, EmptySystem, actions[..k + 1]);
  }

  // ---------------------------------------------------------------- refused pins

  lemma {:induction false} FinishedFrom(u: Setup, actions: seq<Action>, i: nat, j: nat, t: int)
    requires IsRun(u, EmptySystem, actions) && i <= j <= |actions|
    requires t in StateAt(u, actions, i).txs && StateAt(u, actions, i).txs[t].stage.Finished?
    ensures t in StateAt(u, actions, j).txs && StateAt(u, actions, j).txs[t] == StateAt(u, actions, i).txs[t]
    decreases j
  {
    if i < j {
      FinishedFrom(u, actions, i, j - 1, t);
      StateStep(u, actions, j - 1);
      hide StateAt, Invariant, IsRun, Next;
      FinishedStays(u, StateAt(u, actions, j - 1), actions[j - 1], t);
    }
  }

  lemma OthersLeave(u: Setup, s: System, a: Action, t: int)
    requires Next(u, s, a).Some? && !StepOf(a, t)
    ensures var s' := Next(u, s, a).value; (t in s.txs <==> t in s'.txs) && (t in s.txs ==> s'.txs[t] == s.txs[t])
  {
    hide PinnedBy, MaxSequence, Without, SetPinned;
  }

  /** The step that refuses t finds its owner at the limit. */
  lemma RefusingStep(u: Setup, s: System, a: Action, t: int)
    requires Invariant(u, s) && Next(u, s, a).Some? && t in Next(u, s, a).value.txs
    requires Next(u, s, a).value.txs[t].stage == Finished(PinLimitExceeded)
    requires t in s.txs ==> s.txs[t].stage != Finished(PinLimitExceeded)
    ensures a == Advance(t) && t in s.txs && s.txs[t].job.UpdatePinned?
      && s.txs[t].job == Next(u, s, a).value.txs[t].job
    ensures |PinnedBy(s.db, s.txs[t].job.owner)| == u.limit
  {
    if !StepOf(a, t) { OthersLeave(u, s, a, t); }
    if t in s.txs && s.txs[t].job.UpdatePinned? { assert |PinnedBy(s.db, s.txs[t].job.owner)| <= u.limit; }
    hide PinnedBy, Invariant, Without, SetPinned, MaxSequence;
  }

  lemma {:induction false} RefusedAt(u: Setup, actions: seq<Action>, n: nat, t: int) returns (k: nat)
    requires IsRun(u, EmptySystem, actions) && n <= |actions|
    requires t in StateAt(u, actions, n).txs && StateAt(u, actions, n).txs[t].stage == Finished(PinLimitExceeded)
    ensures k < n && actions[k] == Advance(t)
    ensures var s := StateAt(u, actions, k);
      && t in s.txs && s.txs[t].job.UpdatePinned? && s.txs[t].job == StateAt(u, actions, n).txs[t].job
      && |PinnedBy(s.db, s.txs[t].job.owner)| == u.limit
    decreases n
  {
    k := 0;
    if n > 0 {
      StateStep(u, actions, n - 1);
      var s := StateAt(u, actions, n - 1);
      if t in s.txs && s.txs[t].stage == Finished(PinLimitExceeded) {
        k := RefusedAt(u, actions, n - 1, t);
        FinishedFrom(u, actions, n - 1, n, t);
      } else {
        k := n - 1;
        hide StateAt, IsRun;
        RefusingStep(u, s, actions[k], t);
      }
    }
  }

  /**
   * A refused pin: in any run, no step of that transaction wrote anything, and when it was refused its
   * owner held exactly as many pins as are allowed.
   */
  lemma RefusedPinChangesNothing(u: Setup, actions: seq<Action>, t: int) returns (k: nat)
    requires IsRun(u, EmptySystem, actions)
    requires var s := StateAt(u, actions, |actions|); t in s.txs && s.txs[t].stage == Finished(PinLimitExceeded)
    ensures forall i | 0 <= i < |actions| && StepOf(actions[i], t) ::
      StateAt(u, actions, i + 1).db == StateAt(u, actions, i).db
    ensures k < |actions| && actions[k] == Advance(t)
    ensures var s := StateAt(u, actions, k);
      && t in s.txs && s.txs[t].job.UpdatePinned? && s.txs[t].job == StateAt(u, actions, |actions|).txs[t].job
      && |PinnedBy(s.db, s.txs[t].job.owner)| == u.limit
  {
    hide StateAt, IsRun;
    k := RefusedAt(u, actions, |actions|, t);
    forall i | 0 <= i < |actions| && StepOf(actions[i], t)
      ensures StateAt(u, actions, i + 1).db == StateAt(u, actions, i).db
    {
      RefusedWroteNothing(u, actions, t, i);
    }
  }

  lemma RefusedWroteNothing(u: Setup, actions: seq<Action>, t: int, i: nat)
    requires IsRun(u, EmptySystem, actions)
    requires var s := StateAt(u, actions, |actions|); t in s.txs && s.txs[t].stage == Finished(PinLimitExceeded)
    requires i < |actions| && StepOf(actions[i], t)
    ensures StateAt(u, actions, i + 1).db == StateAt(u, actions, i).db
  {
    hide StateAt, Invariant, Next, IsRun;
    StateStep(u, actions, i);
    if StateAt(u, actions, i + 1).db != StateAt(u, actions, i).db {
      WritesAreCommits(u, StateAt(u, actions, i), actions[i]);
      FinishedFrom(u, actions, i + 1, |actions|, t);
    }
  }

  // ---------------------------------------------------------------- logs over whole runs

  predicate Creates(a: Action, c: int) {
    a.Create? && a.conversation == c
  }

  /** The id of a conversation is generated, so it is created once. */
  predicate CreatedOnce(actions: seq<Action>, c: int) {
    forall i, j | 0 <= i < j < |actions| :: !(Creates(actions[i], c) && Creates(actions[j], c))
  }

  lemma OnlyCreateCreates(u: Setup, s: System, a: Action, c: int)
    requires Next(u, s, a).Some? && c in Next(u, s, a).value.db.conversations
    ensures c in s.db.conversations || Creates(a, c)
  {
  }

  lemma {:induction false} CreatedBefore(u: Setup, actions: seq<Action>, j: nat, c: int) returns (i: nat)
    requires IsRun(u, EmptySystem, actions) && j <= |actions| && c in StateAt(u, actions, j).db.conversations
    ensures i < j && Creates(actions[i], c)
    decreases j
  {
    i := 0;
    if j > 0 {
      StateStep(u, actions, j - 1);
      OnlyCreateCreates(u, StateAt(u, actions, j - 1), actions[j - 1], c);
      hide StateAt, Invariant, Next, IsRun;
      if Creates(actions[j - 1], c) { i := j - 1; } else { i := CreatedBefore(u, actions, j - 1, c); }
    }
  }

  /** Without a second creation, a conversation that exists later existed all along, and its logs only grew. */
  lemma {:induction false} LogsGrowAlong(u: Setup, actions: seq<Action>, i: nat, j: nat, c: int)
    requires IsRun(u, EmptySystem, actions) && i <= j <= |actions|
    requires forall k | i <= k < j :: !Creates(actions[k], c)
    requires c in StateAt(u, actions, j).db.conversations
    ensures var before, after := StateAt(u, actions, i).db, StateAt(u, actions, j).db;
      && c in before.conversations
      && c in before.messages && c in after.messages && before.messages[c] <= after.messages[c]
      && c in before.events && c in after.events && before.events[c] <= after.events[c]
    decreases j
  {
    if i < j {
      StateStep(u, actions, j - 1);
      var s := StateAt(u, actions, j - 1);
      OnlyCreateCreates(u, s, actions[j - 1], c);
      LogsGrow(u, s, actions[j - 1], c);
      hide StateAt, Invariant, Next, IsRun;
      LogsGrowAlong(u, actions, i, j - 1, c);
    } else {
      StateGood(u, actions, i);
      assert c in StateAt(u, actions, i).db.conversations.Keys;
    }
  }

  lemma StateGood(u: Setup, actions: seq<Action>, k: nat)
    requires IsRun(u, EmptySystem, actions) && k <= |actions|
    ensures GoodDatabase(u, StateAt(u, actions, k).db)
  {
    PrefixRuns(u, EmptySystem, actions, k);
    EmptyIsGood(u);
    RunKeeps(u, EmptySystem, actions[..k]);
  }

  /** In a run that creates c once, of two states that know c the later one extends the logs of the earlier. */
  lemma RunLogsGrow(u: Setup, actions: seq<Action>, i: nat, j: nat, c: int)
    requires IsRun(u, EmptySystem, actions) && i <= j <= |actions| && CreatedOnce(actions, c)
    requires c in StateAt(u, actions, i).db.conversations && c in StateAt(u, actions, j).db.conversations
    ensures var before, after := StateAt(u, actions, i).db, StateAt(u, actions, j).db;
      && c in before.messages && c in after.messages && before.messages[c] <= after.messages[c]
      && c in before.events && c in after.events && before.events[c] <= after.events[c]
  {
    var created := CreatedBefore(u, actions, i, c);
    hide StateAt, IsRun, Creates;
    LogsGrowAlong(u, actions, i, j, c);
  }

  lemma OneMore(u: Setup, s: System, a: Action, c: int)
    requires Invariant(u, s) && Next(u, s, a).Some? && c in Next(u, s, a).value.db.messages
    ensures |Next(u, s, a).value.db.messages[c]| <= (if c in s.db.messages then |s.db.messages[c]| else 0) + 1
  {
    hide Invariant, PinnedBy, MaxSequence, Without;
  }

  /** There are at most as many messages as actions. */
  lemma {:induction false} LogBounded(u: Setup, actions: seq<Action>, k: nat, c: int)
    requires IsRun(u, EmptySystem, actions) && k <= |actions| && c in StateAt(u, actions, k).db.messages
    ensures |StateAt(u, actions, k).db.messages[c]| <= k
    decreases k
  {
    if k > 0 {
      StateStep(u, actions, k - 1);
      OneMore(u, StateAt(u, actions, k - 1), actions[k - 1], c);
      hide StateAt, Invariant, Next, IsRun;
      if c in StateAt(u, actions, k - 1).db.messages { LogBounded(u, actions, k - 1, c); }
    }
  }
}
