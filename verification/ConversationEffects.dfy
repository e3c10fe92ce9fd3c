/**
 * What conversation transactions do to the database: the effect of each commit and the reason of each
 * refusal in any interleaving, and the serial execution that an interleaving amounts to.
 */
module ConversationEffects {
  import opened Outcomes
  import opened ConversationWrites
  import opened ConversationRuns

  predicate Over(s: System, t: int) {
    t in s.txs && s.txs[t].stage.Finished?
  }

  /** The step is the one that ends t, with this outcome. */
  ghost predicate Ends(u: Setup, s: System, a: Action, t: int, outcome: Outcome) {
    && Next(u, s, a).Some? && !Over(s, t)
    && t in Next(u, s, a).value.txs && Next(u, s, a).value.txs[t].stage == Finished(outcome)
  }

  lemma EndingStep(u: Setup, s: System, a: Action, t: int, outcome: Outcome)
    requires Invariant(u, s) && Ends(u, s, a, t, outcome)
    ensures t in s.txs && s.txs[t].job == Next(u, s, a).value.txs[t].job
    ensures if outcome == RolledBack then a == Abort(t) else a == Advance(t)
  {
    if !StepOf(a, t) { OthersLeave(u, s, a, t); }
    hide PinnedBy, MaxSequence, Without, SetPinned, Invariant;
  }

  // ---------------------------------------------------------------- commits

  lemma AppendCommits(u: Setup, s: System, t: int)
    requires Invariant(u, s) && Ends(u, s, Advance(t), t, Committed) && t in s.txs && s.txs[t].job.AppendMessage?
    ensures var db, db', job := s.db, Next(u, s, Advance(t)).value.db, s.txs[t].job;
      var c := job.conversation;
      && c in db.conversations && c in db.messages
      && db' == Database(
           db.conversations, db.messages[c := db.messages[c] + [Stored(|db.messages[c]| + 1, job.content)]], db.events)
  {
    assert FreshReads(u, s.db, s.txs[t]);
    hide PinnedBy, MaxSequence, Without;
  }

  lemma EventCommits(u: Setup, s: System, t: int)
    requires Invariant(u, s) && Ends(u, s, Advance(t), t, Committed) && t in s.txs && s.txs[t].job.SaveEvent?
    ensures var db, db', job := s.db, Next(u, s, Advance(t)).value.db, s.txs[t].job;
      var c := job.conversation;
      && c in db.conversations && c in db.events
      && db' == Database(
           db.conversations, db.messages, db.events[c := db.events[c] + [Stored(|db.events[c]| + 1, job.content)]])
  {
    assert FreshReads(u, s.db, s.txs[t]);
    hide PinnedBy, MaxSequence, Without;
  }

  lemma PinCommits(u: Setup, s: System, t: int)
    requires Invariant(u, s) && Ends(u, s, Advance(t), t, Committed) && t in s.txs && s.txs[t].job.UpdatePinned?
    ensures var db, db', job := s.db, Next(u, s, Advance(t)).value.db, s.txs[t].job;
      var c := job.conversation;
      && c in db.conversations && db.conversations[c].owner == job.owner
      && db' == Database(db.conversations[c := Conversation(job.owner, job.pinned)], db.messages, db.events)
      && (job.pinned && !db.conversations[c].pinned ==>
            |PinnedBy(db, job.owner)| < u.limit)
  {
    assert FreshReads(u, s.db, s.txs[t]);
    var db, job := s.db, s.txs[t].job;
    hide PinnedBy, MaxSequence, Without;
    assert db.conversations[job.conversation].pinned == job.pinned ==>
      db.conversations[job.conversation := Conversation(job.owner, job.pinned)] == db.conversations;
  }

  lemma DeleteCommits(u: Setup, s: System, t: int)
    requires Invariant(u, s) && Ends(u, s, Advance(t), t, Committed) && t in s.txs && s.txs[t].job.DeleteConversation?
    ensures var db, db', c := s.db, Next(u, s, Advance(t)).value.db, s.txs[t].job.conversation;
      && c in db.conversations
      && db' == Database(db.conversations - {c}, db.messages - {c}, db.events - {c})
  {
    hide PinnedBy, MaxSequence, Without;
  }

  /** The state before the step that ends t, and that t was its own. */
  lemma EndingInRun(u: Setup, actions: seq<Action>, k: nat, t: int, outcome: Outcome)
    requires IsRun(u, EmptySystem, actions) && k < |actions|
    requires Ends(u, StateAt(u, actions, k), actions[k], t, outcome)
    ensures var s, s' := StateAt(u, actions, k), StateAt(u, actions, k + 1);
      && Invariant(u, s) && Next(u, s, actions[k]) == Some(s') && t in s.txs && t in s'.txs
      && s.txs[t].job == s'.txs[t].job
      && if outcome == RolledBack then actions[k] == Abort(t) else actions[k] == Advance(t)
  {
    hide Invariant, Ends, StateAt, IsRun;
    StateStep(u, actions, k);
    EndingStep(u, StateAt(u, actions, k), actions[k], t, outcome);
  }

  /**
   * A commit in any run writes what was asked for and nothing else: one more row at the end of one log,
   * with the next number; the conversation pinned as asked, below the limit if that adds a pin; or the
   * conversation and both its logs gone.
   */
  lemma CommitEffect(u: Setup, actions: seq<Action>, k: nat, t: int)
    requires IsRun(u, EmptySystem, actions) && k < |actions|
    requires Ends(u, StateAt(u, actions, k), actions[k], t, Committed)
    ensures t in StateAt(u, actions, k).txs
    ensures var db, db' := StateAt(u, actions, k).db, StateAt(u, actions, k + 1).db;
      var job := StateAt(u, actions, k).txs[t].job;
      var c := job.conversation;
      && c in db.conversations && c in db.messages && c in db.events
      && (job.AppendMessage? ==>
            db' == db.(messages := db.messages[c := db.messages[c] + [Stored(|db.messages[c]| + 1, job.content)]]))
      && (job.SaveEvent? ==>
            db' == db.(events := db.events[c := db.events[c] + [Stored(|db.events[c]| + 1, job.content)]]))
      && (job.UpdatePinned? ==>
            && db.conversations[c].owner == job.owner
            && db' == db.(conversations := db.conversations[c := Conversation(job.owner, job.pinned)])
            && (job.pinned && !db.conversations[c].pinned ==>
                  |set d | d in db.conversations && db.conversations[d].owner == job.owner
                              && db.conversations[d].pinned| < u.limit))
      && (job.DeleteConversation? ==>
            db' == Database(db.conversations - {c}, db.messages - {c}, db.events - {c}))
  {
    EndingInRun(u, actions, k, t, Committed);
    var s := StateAt(u, actions, k);
    match s.txs[t].job {
      case AppendMessage(_, _) => AppendCommits(u, s, t);
      case SaveEvent(_, _) => EventCommits(u, s, t);
      case UpdatePinned(_, _, _) => PinCommits(u, s, t);
      case DeleteConversation(_) => DeleteCommits(u, s, t);
    }
    assert GoodDatabase(u, s.db);
    var db, job := s.db, s.txs[t].job;
    assert job.UpdatePinned? ==>
      PinnedBy(db, job.owner) ==
        set d | d in db.conversations && db.conversations[d].owner == job.owner && db.conversations[d].pinned;
    assert s.txs[t].job.conversation in s.db.conversations.Keys;
    hide StateAt, Invariant, Ends, Next, IsRun;
  }

  // ---------------------------------------------------------------- refusals

  /** Why a transaction ends without committing, as the database stands at that step. */
  ghost predicate Reason(u: Setup, db: Database, tx: Transaction, outcome: Outcome) {
    var c := tx.job.conversation;
    match outcome
    case Committed => false
    case NotFound => c !in db.conversations || (tx.job.UpdatePinned? && db.conversations[c].owner != tx.job.owner)
    case PinLimitExceeded =>
      && tx.job.UpdatePinned? && tx.job.pinned && c in db.conversations && !db.conversations[c].pinned
      && |PinnedBy(db, tx.job.owner)| == u.limit
    case WrongSequence =>
      tx.job.SaveEvent? && tx.stage.RowHeldAgain? && c in db.events && tx.stage.next != |db.events[c]| + 1
    case RolledBack => !tx.stage.Finished?
  }

  lemma StepExplained(u: Setup, s: System, a: Action, t: int, outcome: Outcome)
    requires Invariant(u, s) && Ends(u, s, a, t, outcome) && outcome != Committed && t in s.txs
    requires if outcome == RolledBack then a == Abort(t) else a == Advance(t)
    ensures Next(u, s, a).value.db == s.db && Reason(u, s.db, s.txs[t], outcome)
  {
    var db, job := s.db, s.txs[t].job;
    assert FreshReads(u, db, s.txs[t]);
    if job.UpdatePinned? { assert |PinnedBy(db, job.owner)| <= u.limit; }
    if job.SaveEvent? && job.conversation in db.events { DenseMax(db.events[job.conversation]); }
    hide PinnedBy, MaxSequence, Without, SetPinned;
  }

  /**
   * Any other end of a transaction writes nothing and has its reason at that very step: the
   * conversation is missing, or another owner's for a pin; the owner holds exactly the limit and asks
   * for one pin more; the event's number is no longer the next one; or the transaction was aborted.
   */
  lemma RefusalExplained(u: Setup, actions: seq<Action>, k: nat, t: int, outcome: Outcome)
    requires IsRun(u, EmptySystem, actions) && k < |actions| && outcome != Committed
    requires Ends(u, StateAt(u, actions, k), actions[k], t, outcome)
    ensures t in StateAt(u, actions, k).txs && StateAt(u, actions, k + 1).db == StateAt(u, actions, k).db
    ensures Reason(u, StateAt(u, actions, k).db, StateAt(u, actions, k).txs[t], outcome)
    ensures outcome == RolledBack <==> actions[k] == Abort(t)
  {
    EndingInRun(u, actions, k, t, outcome);
    hide StateAt, IsRun;
    StepExplained(u, StateAt(u, actions, k), actions[k], t, outcome);
    hide Invariant, Ends, Next, Reason;
  }

  /** A transaction does the job it was begun with. */
  lemma {:induction false} JobAsRequested(u: Setup, actions: seq<Action>, k: nat, t: int) returns (i: nat)
    requires IsRun(u, EmptySystem, actions) && k <= |actions| && t in StateAt(u, actions, k).txs
    ensures i < k && actions[i] == Begin(t, StateAt(u, actions, k).txs[t].job)
  {
    i := 0;
    if k > 0 {
      StateStep(u, actions, k - 1);
      JobStays(u, StateAt(u, actions, k - 1), actions[k - 1], t);
      hide StateAt, IsRun, Invariant, Next;
      if t in StateAt(u, actions, k - 1).txs { i := JobAsRequested(u, actions, k - 1, t); } else { i := k - 1; }
    }
  }

  lemma JobStays(u: Setup, s: System, a: Action, t: int)
    requires Next(u, s, a).Some? && t in Next(u, s, a).value.txs
    ensures if t in s.txs then Next(u, s, a).value.txs[t].job == s.txs[t].job
            else a == Begin(t, Next(u, s, a).value.txs[t].job)
  {
    if !StepOf(a, t) { OthersLeave(u, s, a, t); }
    hide PinnedBy, MaxSequence, Without, SetPinned;
  }

  // ---------------------------------------------------------------- waiting and ending

  /** The stages whose next statement asks for the row. */
  predicate WantsRow(tx: Transaction) {
    match tx.job
    case AppendMessage(_, _) => tx.stage.Begun?
    case SaveEvent(_, _) => tx.stage.Begun? || tx.stage.Numbered? || tx.stage.NumberedUnlocked?
    case UpdatePinned(_, _, _) => tx.stage.AdvisoryHeld?
    case DeleteConversation(_) => tx.stage.Begun?
  }

  /**
   * A transaction waits exactly for a lock that another one holds: a pin for its owner's advisory lock,
   * and then, like every other, for the row of its conversation if that is there to be locked.
   */
  lemma WaitsExactlyForLocks(u: Setup, s: System, t: int)
    requires Invariant(u, s) && Active(s, t)
    ensures var tx := s.txs[t];
      var c := tx.job.conversation;
      Next(u, s, Advance(t)).None? <==>
        || (tx.job.UpdatePinned? && tx.stage.Begun?
            && u.hash(tx.job.owner) in s.advisoryLocks && s.advisoryLocks[u.hash(tx.job.owner)] != t)
        || (WantsRow(tx) && c in s.db.conversations && c in s.rowLocks && s.rowLocks[c] != t
            && (tx.job.UpdatePinned? ==> s.db.conversations[c].owner == tx.job.owner))
  {
    assert FreshReads(u, s.db, s.txs[t]);
    var c := s.txs[t].job.conversation;
    assert c in s.db.conversations.Keys ==> c in s.db.messages.Keys && c in s.db.events.Keys;
    if HoldsRow(s.txs[t]) { assert s.rowLocks[c] == t; }
    hide PinnedBy, MaxSequence, Without, SetPinned, GoodDatabase;
  }

  /** How many statements a transaction has before it at most. */
  function StatementsLeft(stage: Stage): nat {
    match stage
    case Begun => 6
    case AdvisoryHeld => 5
    case RowHeld => 4
    case Numbered(_) => 3
    case NumberedUnlocked(_) => 3
    case RowHeldAgain(_) => 2
    case Checked(_) => 1
    case Counted(_) => 1
    case Finished(_) => 0
  }

  function Advances(actions: seq<Action>, t: int): nat {
    if actions == [] then 0
    else Advances(actions[..|actions| - 1], t) + if actions[|actions| - 1] == Advance(t) then 1 else 0
  }

  lemma OneStatementLess(u: Setup, s: System, a: Action, t: int)
    requires Invariant(u, s) && Next(u, s, a).Some?
    ensures var s' := Next(u, s, a).value;
      && (t in s.txs ==>
            && t in s'.txs
            && StatementsLeft(s'.txs[t].stage) + (if a == Advance(t) then 1 else 0) <= StatementsLeft(s.txs[t].stage))
      && (t !in s.txs ==> a != Advance(t))
  {
    if !StepOf(a, t) { OthersLeave(u, s, a, t); }
    else if t in s.txs { assert FreshReads(u, s.db, s.txs[t]); }
    hide PinnedBy, MaxSequence, Without, SetPinned, GoodDatabase, GoodLocks;
  }

  /** No transaction executes more than six statements, however often others get in between. */
  lemma {:induction false} AtMostSixStatements(u: Setup, actions: seq<Action>, k: nat, t: int)
    requires IsRun(u, EmptySystem, actions) && k <= |actions|
    ensures var s := StateAt(u, actions, k);
      Advances(actions[..k], t) + (if t in s.txs then StatementsLeft(s.txs[t].stage) else 6) <= 6
  {
    if k > 0 {
      AtMostSixStatements(u, actions, k - 1, t);
      StateStep(u, actions, k - 1);
      assert actions[..k][..k - 1] == actions[..k - 1];
      OneStatementLess(u, StateAt(u, actions, k - 1), actions[k - 1], t);
      hide StateAt, IsRun, Invariant, Next;
      if t in StateAt(u, actions, k).txs { AtMostSix(StateAt(u, actions, k).txs[t].stage); }
    }
  }

  lemma AtMostSix(stage: Stage)
    ensures StatementsLeft(stage) <= 6
  {
  }

  // ---------------------------------------------------------------- the serial execution

  /** A committed write: the creation of a conversation, or a job. */
  datatype Write = Created(conversation: int, owner: string) | Performed(job: Job)

  /** The write, done alone and without locks. */
  function Applied(db: Database, w: Write): Database {
    match w
    case Created(c, owner) =>
      Database(db.conversations[c := Conversation(owner, false)], db.messages[c := []], db.events[c := []])
    case Performed(AppendMessage(c, content)) =>
      if c !in db.messages then db
      else db.(messages := db.messages[c := db.messages[c] + [Stored(|db.messages[c]| + 1, content)]])
    case Performed(SaveEvent(c, content)) =>
      if c !in db.events then db
      else db.(events := db.events[c := db.events[c] + [Stored(|db.events[c]| + 1, content)]])
    case Performed(UpdatePinned(c, owner, pinned)) =>
      db.(conversations := db.conversations[c := Conversation(owner, pinned)])
    case Performed(DeleteConversation(c)) =>
      Database(db.conversations - {c}, db.messages - {c}, db.events - {c})
  }

  /** The write is one the rules allow on this database. */
  ghost predicate Allowed(u: Setup, db: Database, w: Write) {
    match w
    case Created(c, _) => c !in db.conversations
    case Performed(job) =>
      && job.conversation in db.conversations
      && (job.UpdatePinned? ==>
            && db.conversations[job.conversation].owner == job.owner
            && (job.pinned && !db.conversations[job.conversation].pinned ==>
                  |PinnedBy(db, job.owner)| < u.limit))
  }

  function Replayed(ws: seq<Write>): Database {
    if ws == [] then Database(map[], map[], map[]) else Applied(Replayed(ws[..|ws| - 1]), ws[|ws| - 1])
  }

  /** What an action writes, if it is one that writes. */
  ghost function WrittenBy(u: Setup, s: System, a: Action): seq<Write>
    requires Next(u, s, a).Some?
  {
    match a
    case Create(c, owner) => [Created(c, owner)]
    case Advance(t) => if t in s.txs && Ends(u, s, a, t, Committed) then [Performed(s.txs[t].job)] else []
    case _ => []
  }

  /** The writes of the first k actions, in the order of their commits. */
  ghost function Writes(u: Setup, actions: seq<Action>, k: nat): seq<Write>
    requires IsRun(u, EmptySystem, actions) && k <= |actions|
  {
    if k == 0 then []
    else
      StateStep(u, actions, k - 1);
      Writes(u, actions, k - 1) + WrittenBy(u, StateAt(u, actions, k - 1), actions[k - 1])
  }

  lemma OneWrite(u: Setup, s: System, a: Action)
    requires Invariant(u, s) && Next(u, s, a).Some?
    ensures var ws := WrittenBy(u, s, a);
      && |ws| <= 1
      && Next(u, s, a).value.db == (if ws == [] then s.db else Applied(s.db, ws[0]))
      && (ws != [] ==> Allowed(u, s.db, ws[0]))
  {
    if WrittenBy(u, s, a) != [] && a.Advance? {
      match s.txs[a.tx].job {
        case AppendMessage(_, _) => AppendCommits(u, s, a.tx);
        case SaveEvent(_, _) => EventCommits(u, s, a.tx);
        case UpdatePinned(_, _, _) => PinCommits(u, s, a.tx);
        case DeleteConversation(_) => DeleteCommits(u, s, a.tx);
      }
      hide Next, Invariant, Ends;
    } else if !a.Create? {
      if Next(u, s, a).value.db != s.db {
        WritesAreCommits(u, s, a);
        AdvancingOver(u, s, a);
      }
      hide Next, Invariant;
    }
  }

  lemma AdvancingOver(u: Setup, s: System, a: Action)
    requires a.Advance? && Next(u, s, a).Some?
    ensures a.tx in s.txs && !Over(s, a.tx)
  {
  }

  /**
   * Serialisability: in every interleaving the database is that of the committed writes done one after
   * the other, in the order of their commits, and each was allowed when its turn came.
   */
  lemma {:induction false} RunsAreSerial(u: Setup, actions: seq<Action>, k: nat)
    requires IsRun(u, EmptySystem, actions) && k <= |actions|
    ensures var ws := Writes(u, actions, k);
      && StateAt(u, actions, k).db == Replayed(ws)
      && forall i | 0 <= i < |ws| :: Allowed(u, Replayed(ws[..i]), ws[i])
  {
    if k > 0 {
      RunsAreSerial(u, actions, k - 1);
      StateStep(u, actions, k - 1);
      var s, a := StateAt(u, actions, k - 1), actions[k - 1];
      OneWrite(u, s, a);
      var before, added := Writes(u, actions, k - 1), WrittenBy(u, s, a);
      assert Writes(u, actions, k) == before + added;
      hide StateAt, IsRun, Invariant, Next, WrittenBy, Allowed, Applied, Writes;
      SerialSnoc(u, before, added);
    }
  }

  lemma SerialSnoc(u: Setup, before: seq<Write>, added: seq<Write>)
    requires |added| <= 1 && (forall i | 0 <= i < |before| :: Allowed(u, Replayed(before[..i]), before[i]))
    requires added != [] ==> Allowed(u, Replayed(before), added[0])
    ensures Replayed(before + added) == if added == [] then Replayed(before) else Applied(Replayed(before), added[0])
    ensures forall i | 0 <= i < |before + added| :: Allowed(u, Replayed((before + added)[..i]), (before + added)[i])
  {
    var ws := before + added;
    assert ws[..|before|] == before;
    if added == [] { assert ws == before; }
    hide Allowed, Applied, Replayed;
    forall i | 0 <= i < |ws| ensures Allowed(u, Replayed(ws[..i]), ws[i]) {
      if i < |before| { assert ws[..i] == before[..i]; }
    }
  }

  // ---------------------------------------------------------------- what a log holds

  /** The contents appended to c since its last creation, in commit order; nothing if c does not exist. */
  function AppendedTo(ws: seq<Write>, c: int): Option<seq<string>> {
    if ws == [] then None
    else
      var before := AppendedTo(ws[..|ws| - 1], c);
      match ws[|ws| - 1]
      case Created(d, _) => if d == c then Some([]) else before
      case Performed(AppendMessage(d, content)) =>
        if d == c && before.Some? then Some(before.value + [content]) else before
      case Performed(DeleteConversation(d)) => if d == c then None else before
      case _ => before
  }

  ghost predicate HoldsContents(log: seq<Stored>, contents: seq<string>) {
    |log| == |contents| && forall i | 0 <= i < |log| :: log[i] == Stored(i + 1, contents[i])
  }

  lemma {:induction false} ReplayedLog(ws: seq<Write>, c: int)
    ensures c in Replayed(ws).messages <==> AppendedTo(ws, c).Some?
    ensures c in Replayed(ws).messages ==> HoldsContents(Replayed(ws).messages[c], AppendedTo(ws, c).value)
  {
    if ws != [] { ReplayedLog(ws[..|ws| - 1], c); }
  }

  /** In every interleaving the messages of c are what committed appends have brought, none lost and none added. */
  lemma MessagesAreAppends(u: Setup, actions: seq<Action>, k: nat, c: int)
    requires IsRun(u, EmptySystem, actions) && k <= |actions|
    ensures var db, contents := StateAt(u, actions, k).db, AppendedTo(Writes(u, actions, k), c);
      && (c in db.messages <==> contents.Some?)
      && (c in db.messages ==>
            && |db.messages[c]| == |contents.value|
            && forall i | 0 <= i < |contents.value| :: db.messages[c][i] == Stored(i + 1, contents.value[i]))
  {
    RunsAreSerial(u, actions, k);
    ReplayedLog(Writes(u, actions, k), c);
    hide StateAt, Writes, IsRun, Replayed, AppendedTo, Allowed;
  }
}
