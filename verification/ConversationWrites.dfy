/**
 * Conversation writes as concurrent PostgreSQL transactions.  One step of a transaction is one
 * SQL statement (or the write and its commit); a row lock, and the advisory lock of an owner,
 * is held until commit or rollback.  Statements see what has been committed before them.
 */
module ConversationWrites {
  import opened FiniteSets
  import opened Outcomes

  datatype Conversation = Conversation(owner: string, pinned: bool)

  datatype Stored = Stored(sequence: int, content: string)

  /** The committed rows; the logs of a conversation list its rows in the order of their commits. */
  datatype Database = Database(
    conversations: map<int, Conversation>,
    messages: map<int, seq<Stored>>,
    events: map<int, seq<Stored>>
  )

  datatype Job =
    | AppendMessage(conversation: int, content: string)
    | SaveEvent(conversation: int, content: string)
    | UpdatePinned(conversation: int, owner: string, pinned: bool)
    | DeleteConversation(conversation: int)

  datatype Outcome = Committed | NotFound | PinLimitExceeded | WrongSequence | RolledBack

  datatype Stage =
    | Begun
    | AdvisoryHeld
    | RowHeld
    | Numbered(next: int)           // the next sequence number has been read
    | NumberedUnlocked(next: int)   // events only: the lock was lost after the number was read
    | RowHeldAgain(next: int)       // events only: inside save_event
    | Checked(next: int)            // events only: the number is still the next one
    | Counted(count: nat)           // pins only: below the limit
    | Finished(outcome: Outcome)

  datatype Transaction = Transaction(job: Job, stage: Stage)

  datatype System = System(
    db: Database,
    rowLocks: map<int, int>,        // conversation -> transaction
    advisoryLocks: map<int, int>,   // hash of the owner -> transaction
    txs: map<int, Transaction>
  )

  /** The pin limit, and the hash that turns an owner into an advisory lock; it may collide. */
  datatype Setup = Setup(limit: nat, hash: string -> int)

  datatype Action =
    | Create(conversation: int, owner: string)   // a new, unpinned conversation
    | Begin(tx: int, job: Job)
    | Advance(tx: int)
    | LoseLock(tx: int)
    | Abort(tx: int)

  function MaxSequence(log: seq<Stored>): int {
    if log == [] then 0
    else
      var rest := MaxSequence(log[..|log| - 1]);
      if log[|log| - 1].sequence > rest then log[|log| - 1].sequence else rest
  }

  ghost function PinnedBy(db: Database, owner: string): set<int> {
    set c | c in db.conversations && db.conversations[c].owner == owner && db.conversations[c].pinned
  }

  // ---------------------------------------------------------------- the steps

  function Without(locks: map<int, int>, t: int): map<int, int> {
    map c | c in locks && locks[c] != t :: locks[c]
  }

  function Finish(s: System, t: int, job: Job, outcome: Outcome, db: Database): System {
    System(db, Without(s.rowLocks, t), Without(s.advisoryLocks, t), s.txs[t := Transaction(job, Finished(outcome))])
  }

  function Stay(s: System, t: int, job: Job, stage: Stage): System {
    s.(txs := s.txs[t := Transaction(job, stage)])
  }

  /** `SELECT ... FOR UPDATE`: blocks on another holder, finds nothing if the row is not there. */
  function LockRow(s: System, t: int, job: Job, found: bool, stage: Stage): Option<System> {
    var c := job.conversation;
    if !found || c !in s.db.conversations then Some(Finish(s, t, job, NotFound, s.db))
    else if c in s.rowLocks && s.rowLocks[c] != t then None
    else Some(System(s.db, s.rowLocks[c := t], s.advisoryLocks, s.txs[t := Transaction(job, stage)]))
  }

  ghost function AdvanceAppend(s: System, t: int, job: Job, stage: Stage): Option<System>
    requires job.AppendMessage?
  {
    var c := job.conversation;
    match stage
    case Begun => LockRow(s, t, job, true, RowHeld)
    case RowHeld =>
      if c !in s.db.messages then None else Some(Stay(s, t, job, Numbered(MaxSequence(s.db.messages[c]) + 1)))
    case Numbered(n) =>
      if c !in s.db.messages then None
      else
        var log := s.db.messages[c] + [Stored(n, job.content)];
        Some(Finish(s, t, job, Committed, s.db.(messages := s.db.messages[c := log])))
    case _ => None
  }

  ghost function AdvanceEvent(s: System, t: int, job: Job, stage: Stage): Option<System>
    requires job.SaveEvent?
  {
    var c := job.conversation;
    match stage
    case Begun => LockRow(s, t, job, true, RowHeld)
    case RowHeld =>
      if c !in s.db.events then None else Some(Stay(s, t, job, Numbered(MaxSequence(s.db.events[c]) + 1)))
    case Numbered(n) => LockRow(s, t, job, true, RowHeldAgain(n))
    case NumberedUnlocked(n) => LockRow(s, t, job, true, RowHeldAgain(n))
    case RowHeldAgain(n) =>
      if c !in s.db.events then None
      else if MaxSequence(s.db.events[c]) + 1 != n then Some(Finish(s, t, job, WrongSequence, s.db))
      else Some(Stay(s, t, job, Checked(n)))
    case Checked(n) =>
      if c !in s.db.events then None
      else
        var log := s.db.events[c] + [Stored(n, job.content)];
        Some(Finish(s, t, job, Committed, s.db.(events := s.db.events[c := log])))
    case _ => None
  }

  ghost function AdvancePin(u: Setup, s: System, t: int, job: Job, stage: Stage): Option<System>
    requires job.UpdatePinned?
  {
    var c := job.conversation;
    var key := u.hash(job.owner);
    match stage
    case Begun =>
      if key in s.advisoryLocks && s.advisoryLocks[key] != t then None
      else Some(s.(advisoryLocks := s.advisoryLocks[key := t], txs := s.txs[t := Transaction(job, AdvisoryHeld)]))
    case AdvisoryHeld =>
      LockRow(s, t, job, c in s.db.conversations && s.db.conversations[c].owner == job.owner, RowHeld)
    case RowHeld =>
      if c !in s.db.conversations then None
      else if s.db.conversations[c].pinned == job.pinned then Some(Finish(s, t, job, Committed, s.db))
      else if job.pinned then
        var count := |PinnedBy(s.db, job.owner)|;
        if count >= u.limit then Some(Finish(s, t, job, PinLimitExceeded, s.db))
        else Some(Stay(s, t, job, Counted(count)))
      else Some(Finish(s, t, job, Committed, SetPinned(s.db, c, false)))
    case Counted(_) =>
      if c !in s.db.conversations then None
      else Some(Finish(s, t, job, Committed, SetPinned(s.db, c, true)))
    case _ => None
  }

  function SetPinned(db: Database, c: int, pinned: bool): Database
    requires c in db.conversations
  {
    db.(conversations := db.conversations[c := db.conversations[c].(pinned := pinned)])
  }

  ghost function AdvanceDelete(s: System, t: int, job: Job, stage: Stage): Option<System>
    requires job.DeleteConversation?
  {
    var c := job.conversation;
    match stage
    case Begun => LockRow(s, t, job, true, RowHeld)
    case RowHeld =>
      Some(Finish(s, t, job, Committed,
                  Database(s.db.conversations - {c}, s.db.messages - {c}, s.db.events - {c})))
    case _ => None
  }

  ghost function AdvanceTx(u: Setup, s: System, t: int): Option<System>
    requires t in s.txs
  {
    var job, stage := s.txs[t].job, s.txs[t].stage;
    match job
    case AppendMessage(_, _) => AdvanceAppend(s, t, job, stage)
    case SaveEvent(_, _) => AdvanceEvent(s, t, job, stage)
    case UpdatePinned(_, _, _) => AdvancePin(u, s, t, job, stage)
    case DeleteConversation(_) => AdvanceDelete(s, t, job, stage)
  }

  /** One action of the system, or nothing when it is blocked or does not apply. */
  ghost function Next(u: Setup, s: System, a: Action): Option<System> {
    match a
    case Create(c, owner) =>
      if c in s.db.conversations then None
      else Some(s.(db := Database(s.db.conversations[c := Conversation(owner, false)],
                                  s.db.messages[c := []], s.db.events[c := []])))
    case Begin(t, job) =>
      if t in s.txs then None else Some(s.(txs := s.txs[t := Transaction(job, Begun)]))
    case Advance(t) =>
      if t in s.txs then AdvanceTx(u, s, t) else None
    case LoseLock(t) =>
      if t in s.txs && s.txs[t].job.SaveEvent? && s.txs[t].stage.Numbered? then
        Some(System(s.db, Without(s.rowLocks, t), s.advisoryLocks,
                    s.txs[t := s.txs[t].(stage := NumberedUnlocked(s.txs[t].stage.next))]))
      else None
    case Abort(t) =>
      if t in s.txs && !s.txs[t].stage.Finished? then Some(Finish(s, t, s.txs[t].job, RolledBack, s.db)) else None
  }

  // ---------------------------------------------------------------- what every reachable state satisfies

  ghost predicate Dense(log: seq<Stored>) {
    forall i | 0 <= i < |log| :: log[i].sequence == i + 1
  }

  predicate HoldsRow(tx: Transaction) {
    match tx.stage
    case RowHeld | Numbered(_) | RowHeldAgain(_) | Checked(_) | Counted(_) => true
    case _ => false
  }

  predicate HoldsAdvisory(tx: Transaction) {
    tx.job.UpdatePinned? && (tx.stage.AdvisoryHeld? || tx.stage.RowHeld? || tx.stage.Counted?)
  }

  /** Facts about the database. */
  ghost predicate GoodDatabase(u: Setup, db: Database) {
    && db.messages.Keys == db.events.Keys == db.conversations.Keys
    && (forall c | c in db.messages :: Dense(db.messages[c]))
    && (forall c | c in db.events :: Dense(db.events[c]))
    && (forall owner: string :: |PinnedBy(db, owner)| <= u.limit)
  }

  /** A lock is held by exactly the transactions whose stage says so. */
  ghost predicate GoodLocks(u: Setup, s: System) {
    && (forall t | t in s.txs && HoldsRow(s.txs[t]) ::
          var c := s.txs[t].job.conversation; c in s.rowLocks && s.rowLocks[c] == t && c in s.db.conversations)
    && (forall c | c in s.rowLocks ::
          s.rowLocks[c] in s.txs && HoldsRow(s.txs[s.rowLocks[c]]) && s.txs[s.rowLocks[c]].job.conversation == c)
    && (forall t | t in s.txs && HoldsAdvisory(s.txs[t]) ::
          var k := u.hash(s.txs[t].job.owner); k in s.advisoryLocks && s.advisoryLocks[k] == t)
    && (forall k | k in s.advisoryLocks ::
          s.advisoryLocks[k] in s.txs && HoldsAdvisory(s.txs[s.advisoryLocks[k]])
          && u.hash(s.txs[s.advisoryLocks[k]].job.owner) == k)
  }

  /** What a transaction has read is still true while it holds its locks. */
  ghost predicate FreshReads(u: Setup, db: Database, tx: Transaction) {
    var c := tx.job.conversation;
    match tx.job
    case AppendMessage(_, _) =>
      && !tx.stage.Counted? && !tx.stage.AdvisoryHeld? && !tx.stage.NumberedUnlocked?
      && !tx.stage.RowHeldAgain? && !tx.stage.Checked?
      && (tx.stage.Numbered? ==> c in db.messages && tx.stage.next == |db.messages[c]| + 1)
    case SaveEvent(_, _) =>
      && !tx.stage.Counted? && !tx.stage.AdvisoryHeld?
      && (tx.stage.Checked? ==> c in db.events && tx.stage.next == |db.events[c]| + 1)
    case UpdatePinned(_, owner, _) =>
      && (tx.stage.Begun? || tx.stage.AdvisoryHeld? || tx.stage.RowHeld? || tx.stage.Counted? || tx.stage.Finished?)
      && (HoldsRow(tx) ==> c in db.conversations && db.conversations[c].owner == owner)
      && (tx.stage.Counted? ==>
            tx.job.pinned && !db.conversations[c].pinned && |PinnedBy(db, owner)| <= tx.stage.count < u.limit)
    case DeleteConversation(_) =>
      tx.stage.Begun? || tx.stage.RowHeld? || tx.stage.Finished?
  }

  ghost predicate Invariant(u: Setup, s: System) {
    && GoodDatabase(u, s.db) && GoodLocks(u, s)
    && forall t | t in s.txs :: FreshReads(u, s.db, s.txs[t])
  }

  lemma {:induction false} DenseMax(log: seq<Stored>)
    requires Dense(log)
    ensures MaxSequence(log) == |log|
  {
    if log != [] { DenseMax(log[..|log| - 1]); }
  }

  /** Only the holder of a row lock changes that conversation, and only the advisory holder adds a pin. */
  ghost predicate Touches(u: Setup, s: System, t: int, db': Database) {
    && (forall c | c in s.db.conversations && !(c in s.rowLocks && s.rowLocks[c] == t) ::
          && c in db'.conversations && c in s.db.messages && c in db'.messages && c in s.db.events && c in db'.events
          && db'.conversations[c] == s.db.conversations[c]
          && db'.messages[c] == s.db.messages[c] && db'.events[c] == s.db.events[c])
    && (forall owner: string | !(u.hash(owner) in s.advisoryLocks && s.advisoryLocks[u.hash(owner)] == t) ::
          |PinnedBy(db', owner)| <= |PinnedBy(s.db, owner)|)
  }

  lemma LocksAfterFinish(u: Setup, s: System, t: int, outcome: Outcome, db': Database)
    requires GoodLocks(u, s) && t in s.txs
    requires forall c | c in s.db.conversations && !(c in s.rowLocks && s.rowLocks[c] == t) :: c in db'.conversations
    ensures GoodLocks(u, Finish(s, t, s.txs[t].job, outcome, db'))
  {
  }

  lemma OthersStayFresh(u: Setup, s: System, t: int, db': Database)
    requires Invariant(u, s) && t in s.txs && Touches(u, s, t, db')
    ensures forall o | o in s.txs && o != t :: FreshReads(u, db', s.txs[o])
  {
    forall o | o in s.txs && o != t ensures FreshReads(u, db', s.txs[o]) {
      assert FreshReads(u, s.db, s.txs[o]);
      if HoldsRow(s.txs[o]) { assert s.rowLocks[s.txs[o].job.conversation] == o; }
    }
  }

  /** Ending a transaction, with whatever it wrote, keeps the invariant. */
  lemma FinishKeeps(u: Setup, s: System, t: int, outcome: Outcome, db': Database)
    requires Invariant(u, s) && t in s.txs && Touches(u, s, t, db') && GoodDatabase(u, db')
    ensures Invariant(u, Finish(s, t, s.txs[t].job, outcome, db'))
  {
    LocksAfterFinish(u, s, t, outcome, db');
    OthersStayFresh(u, s, t, db');
  }

  lemma NothingTouched(u: Setup, s: System, t: int)
    requires Invariant(u, s)
    ensures Touches(u, s, t, s.db)
  {
  }

  // ---------------------------------------------------------------- every step keeps the invariant

  lemma StayKeeps(u: Setup, s: System, t: int, stage: Stage)
    requires Invariant(u, s) && t in s.txs
    requires HoldsRow(s.txs[t].(stage := stage)) == HoldsRow(s.txs[t])
    requires HoldsAdvisory(s.txs[t].(stage := stage)) == HoldsAdvisory(s.txs[t])
    requires FreshReads(u, s.db, s.txs[t].(stage := stage))
    ensures Invariant(u, Stay(s, t, s.txs[t].job, stage))
  {
  }

  lemma LockRowKeeps(u: Setup, s: System, t: int, found: bool, stage: Stage)
    requires Invariant(u, s) && t in s.txs
    requires HoldsRow(s.txs[t].(stage := stage))
    requires HoldsAdvisory(s.txs[t].(stage := stage)) == HoldsAdvisory(s.txs[t])
    requires found && s.txs[t].job.conversation in s.db.conversations ==> FreshReads(u, s.db, s.txs[t].(stage := stage))
    ensures var s' := LockRow(s, t, s.txs[t].job, found, stage); s'.Some? ==> Invariant(u, s'.value)
  {
    var job := s.txs[t].job;
    var c := job.conversation;
    if !found || c !in s.db.conversations {
      NothingTouched(u, s, t);
      FinishKeeps(u, s, t, NotFound, s.db);
    } else if !(c in s.rowLocks && s.rowLocks[c] != t) {
      var s' := LockRow(s, t, job, found, stage).value;
      forall o | o in s'.txs && HoldsRow(s'.txs[o])
        ensures var d := s'.txs[o].job.conversation; d in s'.rowLocks && s'.rowLocks[d] == o
      {
        if o != t { assert s.rowLocks[s.txs[o].job.conversation] == o; }
      }
    }
  }

  lemma PinnedUnchanged(db: Database, db': Database)
    requires db.conversations == db'.conversations
    ensures forall owner: string :: PinnedBy(db', owner) == PinnedBy(db, owner)
  {
  }

  lemma DenseSnoc(log: seq<Stored>, n: int, content: string)
    requires Dense(log) && n == |log| + 1
    ensures Dense(log + [Stored(n, content)])
  {
  }

  lemma AppendKeeps(u: Setup, s: System, t: int)
    requires Invariant(u, s) && t in s.txs && s.txs[t].job.AppendMessage?
    ensures var s' := AdvanceTx(u, s, t); s'.Some? ==> Invariant(u, s'.value)
  {
    var job, stage := s.txs[t].job, s.txs[t].stage;
    var c := job.conversation;
    assert FreshReads(u, s.db, s.txs[t]);
    match stage {
      case Begun => LockRowKeeps(u, s, t, true, RowHeld);
      case RowHeld =>
        if c in s.db.messages {
          DenseMax(s.db.messages[c]);
          StayKeeps(u, s, t, Numbered(MaxSequence(s.db.messages[c]) + 1));
        }
      case Numbered(n) =>
        DenseSnoc(s.db.messages[c], n, job.content);
        var db' := s.db.(messages := s.db.messages[c := s.db.messages[c] + [Stored(n, job.content)]]);
        PinnedUnchanged(s.db, db');
        FinishKeeps(u, s, t, Committed, db');
      case _ =>
    }
  }

  lemma EventKeeps(u: Setup, s: System, t: int)
    requires Invariant(u, s) && t in s.txs && s.txs[t].job.SaveEvent?
    ensures var s' := AdvanceTx(u, s, t); s'.Some? ==> Invariant(u, s'.value)
  {
    var job, stage := s.txs[t].job, s.txs[t].stage;
    var c := job.conversation;
    assert FreshReads(u, s.db, s.txs[t]);
    match stage {
      case Begun => LockRowKeeps(u, s, t, true, RowHeld);
      case RowHeld =>
        if c in s.db.events { StayKeeps(u, s, t, Numbered(MaxSequence(s.db.events[c]) + 1)); }
      case Numbered(n) => LockRowKeeps(u, s, t, true, RowHeldAgain(n));
      case NumberedUnlocked(n) => LockRowKeeps(u, s, t, true, RowHeldAgain(n));
      case RowHeldAgain(n) =>
        if c in s.db.events {
          DenseMax(s.db.events[c]);
          if MaxSequence(s.db.events[c]) + 1 != n {
            NothingTouched(u, s, t);
            FinishKeeps(u, s, t, WrongSequence, s.db);
          } else {
            StayKeeps(u, s, t, Checked(n));
          }
        }
      case Checked(n) =>
        DenseSnoc(s.db.events[c], n, job.content);
        var db' := s.db.(events := s.db.events[c := s.db.events[c] + [Stored(n, job.content)]]);
        PinnedUnchanged(s.db, db');
        FinishKeeps(u, s, t, Committed, db');
      case _ =>
    }
  }

  lemma PinningCounts(db: Database, c: int, pinned: bool)
    requires c in db.conversations && db.conversations[c].pinned != pinned
    ensures forall owner: string ::
      PinnedBy(SetPinned(db, c, pinned), owner)
      == if owner != db.conversations[c].owner then PinnedBy(db, owner)
         else if pinned then PinnedBy(db, owner) + {c} else PinnedBy(db, owner) - {c}
  {
  }

  lemma PinWriteKeeps(u: Setup, s: System, t: int, pinned: bool)
    requires Invariant(u, s) && t in s.txs && s.txs[t].job.UpdatePinned? && HoldsRow(s.txs[t])
    requires s.db.conversations[s.txs[t].job.conversation].pinned != pinned
    requires pinned ==> s.txs[t].stage.Counted?
    ensures Invariant(u, Finish(s, t, s.txs[t].job, Committed, SetPinned(s.db, s.txs[t].job.conversation, pinned)))
  {
    var job := s.txs[t].job;
    var c := job.conversation;
    var db' := SetPinned(s.db, c, pinned);
    assert FreshReads(u, s.db, s.txs[t]);
    PinningCounts(s.db, c, pinned);
    forall owner: string
      ensures |PinnedBy(db', owner)| <= u.limit
      ensures owner == job.owner || |PinnedBy(db', owner)| <= |PinnedBy(s.db, owner)|
      ensures !pinned ==> |PinnedBy(db', owner)| <= |PinnedBy(s.db, owner)|
    {
      assert |PinnedBy(s.db, owner)| <= u.limit;
    }
    FinishKeeps(u, s, t, Committed, db');
  }

  /** The decision made under both locks. */
  lemma PinDecisionKeeps(u: Setup, s: System, t: int)
    requires Invariant(u, s) && t in s.txs && s.txs[t].job.UpdatePinned? && s.txs[t].stage.RowHeld?
    ensures var s' := AdvanceTx(u, s, t); s'.Some? ==> Invariant(u, s'.value)
  {
    var job := s.txs[t].job;
    assert FreshReads(u, s.db, s.txs[t]);
    var pinned := s.db.conversations[job.conversation].pinned;
    hide Invariant, PinnedBy;
    if pinned == job.pinned {
      NothingTouched(u, s, t);
      FinishKeeps(u, s, t, Committed, s.db);
    } else if !job.pinned {
      PinWriteKeeps(u, s, t, false);
    } else if |PinnedBy(s.db, job.owner)| >= u.limit {
      NothingTouched(u, s, t);
      FinishKeeps(u, s, t, PinLimitExceeded, s.db);
    } else {
      CountKeeps(u, s, t);
    }
  }

  lemma CountKeeps(u: Setup, s: System, t: int)
    requires Invariant(u, s) && t in s.txs && s.txs[t].job.UpdatePinned? && s.txs[t].stage.RowHeld?
    requires s.txs[t].job.pinned && s.txs[t].job.conversation in s.db.conversations
    requires !s.db.conversations[s.txs[t].job.conversation].pinned && |PinnedBy(s.db, s.txs[t].job.owner)| < u.limit
    ensures Invariant(u, Stay(s, t, s.txs[t].job, Counted(|PinnedBy(s.db, s.txs[t].job.owner)|)))
  {
    assert FreshReads(u, s.db, s.txs[t]);
    StayKeeps(u, s, t, Counted(|PinnedBy(s.db, s.txs[t].job.owner)|));
  }

  lemma PinKeeps(u: Setup, s: System, t: int)
    requires Invariant(u, s) && t in s.txs && s.txs[t].job.UpdatePinned?
    ensures var s' := AdvanceTx(u, s, t); s'.Some? ==> Invariant(u, s'.value)
  {
    var job := s.txs[t].job;
    var c := job.conversation;
    assert FreshReads(u, s.db, s.txs[t]);
    match s.txs[t].stage {
      case AdvisoryHeld =>
        LockRowKeeps(u, s, t, c in s.db.conversations && s.db.conversations[c].owner == job.owner, RowHeld);
      case RowHeld => PinDecisionKeeps(u, s, t);
      case Counted(_) => PinWriteKeeps(u, s, t, true);
      case _ =>
    }
  }

  lemma DeleteKeeps(u: Setup, s: System, t: int)
    requires Invariant(u, s) && t in s.txs && s.txs[t].job.DeleteConversation?
    ensures var s' := AdvanceTx(u, s, t); s'.Some? ==> Invariant(u, s'.value)
  {
    var job, stage := s.txs[t].job, s.txs[t].stage;
    var c := job.conversation;
    assert FreshReads(u, s.db, s.txs[t]);
    if stage.Begun? {
      LockRowKeeps(u, s, t, true, RowHeld);
    } else if stage.RowHeld? {
      var db' := Database(s.db.conversations - {c}, s.db.messages - {c}, s.db.events - {c});
      forall owner: string ensures |PinnedBy(db', owner)| <= |PinnedBy(s.db, owner)| <= u.limit {
        SubsetSize(PinnedBy(db', owner), PinnedBy(s.db, owner));
      }
      FinishKeeps(u, s, t, Committed, db');
    }
  }

  lemma CreateKeeps(u: Setup, s: System, c: int, owner: string)
    requires Invariant(u, s) && c !in s.db.conversations
    ensures Invariant(u, Next(u, s, Create(c, owner)).value)
  {
    var s' := Next(u, s, Create(c, owner)).value;
    forall o: string ensures PinnedBy(s'.db, o) == PinnedBy(s.db, o) {
    }
    forall t | t in s'.txs ensures FreshReads(u, s'.db, s'.txs[t]) {
      assert FreshReads(u, s.db, s.txs[t]);
    }
  }

  lemma AdvanceKeeps(u: Setup, s: System, t: int)
    requires Invariant(u, s) && t in s.txs
    ensures var s' := AdvanceTx(u, s, t); s'.Some? ==> Invariant(u, s'.value)
  {
    match s.txs[t].job {
      case AppendMessage(_, _) => AppendKeeps(u, s, t);
      case SaveEvent(_, _) => EventKeeps(u, s, t);
      case UpdatePinned(_, _, _) => PinKeeps(u, s, t);
      case DeleteConversation(_) => DeleteKeeps(u, s, t);
    }
  }

  lemma LoseLockKeeps(u: Setup, s: System, t: int)
    requires Invariant(u, s) && Next(u, s, LoseLock(t)).Some?
    ensures Invariant(u, Next(u, s, LoseLock(t)).value)
  {
    assert FreshReads(u, s.db, s.txs[t]);
  }

  lemma NextKeeps(u: Setup, s: System, a: Action)
    requires Invariant(u, s) && Next(u, s, a).Some?
    ensures Invariant(u, Next(u, s, a).value)
  {
    match a {
      case Create(c, owner) => CreateKeeps(u, s, c, owner);
      case Begin(t, job) =>
      case Advance(t) => AdvanceKeeps(u, s, t);
      case LoseLock(t) => LoseLockKeeps(u, s, t);
      case Abort(t) =>
        NothingTouched(u, s, t);
        FinishKeeps(u, s, t, RolledBack, s.db);
    }
  }

  // ---------------------------------------------------------------- whole runs

  const EmptySystem := System(Database(map[], map[], map[]), map[], map[], map[])

  ghost predicate IsRun(u: Setup, s: System, actions: seq<Action>)
    decreases |actions|
  {
    actions == [] || (Next(u, s, actions[0]).Some? && IsRun(u, Next(u, s, actions[0]).value, actions[1..]))
  }

  ghost function After(u: Setup, s: System, actions: seq<Action>): System
    requires IsRun(u, s, actions)
    decreases |actions|
  {
    if actions == [] then s else After(u, Next(u, s, actions[0]).value, actions[1..])
  }

  lemma {:induction false} RunKeeps(u: Setup, s: System, actions: seq<Action>)
    requires Invariant(u, s) && IsRun(u, s, actions)
    ensures Invariant(u, After(u, s, actions))
    decreases |actions|
  {
    if actions != [] {
      NextKeeps(u, s, actions[0]);
      RunKeeps(u, Next(u, s, actions[0]).value, actions[1..]);
    }
  }

  lemma EmptyIsGood(u: Setup)
    ensures Invariant(u, EmptySystem)
  {
    assert forall owner: string :: PinnedBy(EmptySystem.db, owner) == {};
  }

  /** In every interleaving, messages, and separately events, are numbered exactly 1..n. */
  lemma SequencesAreDense(u: Setup, actions: seq<Action>, c: int)
    requires IsRun(u, EmptySystem, actions)
    ensures var db := After(u, EmptySystem, actions).db;
            && (c in db.conversations <==> c in db.messages) && (c in db.conversations <==> c in db.events)
            && (c in db.conversations ==>
                  && (forall i | 0 <= i < |db.messages[c]| :: db.messages[c][i].sequence == i + 1)
                  && (forall i | 0 <= i < |db.events[c]| :: db.events[c][i].sequence == i + 1))
  {
    EmptyIsGood(u);
    RunKeeps(u, EmptySystem, actions);
    var db := After(u, EmptySystem, actions).db;
    assert c in db.messages.Keys <==> c in db.conversations.Keys;
  }

  /** In every interleaving no owner has more pinned conversations than the limit, even if hashes collide. */
  lemma PinCap(u: Setup, actions: seq<Action>, owner: string)
    requires IsRun(u, EmptySystem, actions)
    ensures var rows := After(u, EmptySystem, actions).db.conversations;
      |set c | c in rows && rows[c].owner == owner && rows[c].pinned| <= u.limit
  {
    EmptyIsGood(u);
    RunKeeps(u, EmptySystem, actions);
    var db := After(u, EmptySystem, actions).db;
    assert PinnedBy(db, owner) == set c | c in db.conversations && db.conversations[c].owner == owner
                                          && db.conversations[c].pinned;
  }

  // ---------------------------------------------------------------- what single steps do

  /**
   * A step writes only by committing: it creates an empty conversation, adds one row at the end
   * of one log, moves one pin, or deletes one conversation.  A rejected or rolled back
   * transaction changes nothing.
   */
  lemma WritesAreCommits(u: Setup, s: System, a: Action)
    requires Invariant(u, s) && Next(u, s, a).Some? && Next(u, s, a).value.db != s.db
    ensures a.Create? ||
      (a.Advance? && a.tx in Next(u, s, a).value.txs && Next(u, s, a).value.txs[a.tx].stage == Finished(Committed))
  {
  }

  /** Logs only grow, by whole rows at the end, as long as their conversation exists. */
  lemma LogsGrow(u: Setup, s: System, a: Action, c: int)
    requires Invariant(u, s) && Next(u, s, a).Some?
    requires c in s.db.conversations && c in Next(u, s, a).value.db.conversations
    ensures var db' := Next(u, s, a).value.db;
            && c in s.db.messages && c in db'.messages && s.db.messages[c] <= db'.messages[c]
            && c in s.db.events && c in db'.events && s.db.events[c] <= db'.events[c]
  {
    NextKeeps(u, s, a);
    assert c in s.db.messages.Keys && c in s.db.events.Keys;
    assert c in Next(u, s, a).value.db.messages.Keys && c in Next(u, s, a).value.db.events.Keys;
    hide Invariant, PinnedBy, MaxSequence, Without, LockRow, SetPinned;
    if a.Advance? {
      match s.txs[a.tx].job {
        case AppendMessage(_, _) =>
        case SaveEvent(_, _) =>
        case UpdatePinned(_, _, _) =>
        case DeleteConversation(_) =>
      }
    }
  }

  /** A message that commits is the last row of its conversation, numbered one more than before. */
  lemma CommittedMessage(u: Setup, s: System, t: int)
    requires Invariant(u, s) && t in s.txs && s.txs[t].job.AppendMessage? && s.txs[t].stage.Numbered?
    ensures var c := s.txs[t].job.conversation;
            var s' := Next(u, s, Advance(t));
            && s'.Some? && c in s.db.messages && c in s'.value.db.messages
            && s'.value.db.messages[c] == s.db.messages[c] + [Stored(|s.db.messages[c]| + 1, s.txs[t].job.content)]
  {
    assert FreshReads(u, s.db, s.txs[t]);
  }

  /**
   * save_event commits the number it was given if and only if that number is still the next
   * one; otherwise it is rejected and nothing changes.  This holds whether or not the lock of
   * the earlier read was kept.
   */
  lemma EventCommitsIffStillNext(u: Setup, s: System, t: int)
    requires Invariant(u, s) && t in s.txs && s.txs[t].job.SaveEvent? && s.txs[t].stage.RowHeldAgain?
    ensures var c := s.txs[t].job.conversation;
            var n := s.txs[t].stage.next;
            var s1 := Next(u, s, Advance(t));
            && c in s.db.events && s1.Some? && t in s1.value.txs
            && (n != |s.db.events[c]| + 1 ==> s1.value.txs[t].stage == Finished(WrongSequence) && s1.value.db == s.db)
            && (n == |s.db.events[c]| + 1 ==>
                  var s2 := Next(u, s1.value, Advance(t));
                  && s2.Some? && s2.value.txs[t].stage == Finished(Committed)
                  && c in s2.value.db.events
                  && s2.value.db.events[c] == s.db.events[c] + [Stored(n, s.txs[t].job.content)])
  {
    var c := s.txs[t].job.conversation;
    assert c in s.db.conversations.Keys;
    DenseMax(s.db.events[c]);
  }

  /** With the lock kept from the first read, the number is always still the next one. */
  lemma KeptLockKeepsNumber(u: Setup, s: System, t: int, a: Action)
    requires Invariant(u, s) && t in s.txs && s.txs[t].job.SaveEvent?
    requires s.txs[t].stage.Numbered? || s.txs[t].stage.RowHeldAgain?
    requires Next(u, s, a).Some? && a != Advance(t) && a != Abort(t) && a != LoseLock(t)
    ensures var c := s.txs[t].job.conversation;
            var s' := Next(u, s, a).value;
            && t in s'.txs && s'.txs[t] == s.txs[t]
            && c in s.db.events && c in s'.db.events && s'.db.events[c] == s.db.events[c]
  {
    var c := s.txs[t].job.conversation;
    assert c in s.db.conversations.Keys && s.rowLocks[c] == t;
    if a.Advance? && HoldsRow(s.txs[a.tx]) {
      assert s.rowLocks[s.txs[a.tx].job.conversation] == a.tx;
    }
  }

  predicate StepOf(a: Action, t: int) {
    !a.Create? && a.tx == t
  }

  /** t has its row, which already is as t wants it, or has ended without being refused. */
  ghost predicate Repinning(s: System, t: int) {
    && t in s.txs && s.txs[t].job.UpdatePinned?
    && match s.txs[t].stage
       case RowHeld =>
         var c := s.txs[t].job.conversation;
         c in s.db.conversations && s.db.conversations[c].pinned == s.txs[t].job.pinned
       case Finished(outcome) => outcome == Committed || outcome == RolledBack
       case _ => false
  }

  lemma RepinningStays(u: Setup, s: System, t: int, a: Action)
    requires Invariant(u, s) && Repinning(s, t) && Next(u, s, a).Some?
    ensures Repinning(Next(u, s, a).value, t)
    ensures a == Advance(t) ==> Next(u, s, a).value.db == s.db
  {
    if StepOf(a, t) {
      hide Invariant, PinnedBy, MaxSequence, Without;
    } else if s.txs[t].stage.RowHeld? {
      RowKept(u, s, t, a);
      hide Invariant, Next;
    } else {
      FinishedStays(u, s, a, t);
      hide Invariant, Next;
    }
  }

  lemma FinishedStays(u: Setup, s: System, a: Action, t: int)
    requires t in s.txs && s.txs[t].stage.Finished? && Next(u, s, a).Some?
    ensures t in Next(u, s, a).value.txs && Next(u, s, a).value.txs[t] == s.txs[t]
  {
    hide PinnedBy, MaxSequence, Without, SetPinned;
  }

  /** While t holds its row, no step of another transaction changes the conversation or t. */
  lemma RowKept(u: Setup, s: System, t: int, a: Action)
    requires Invariant(u, s) && t in s.txs && HoldsRow(s.txs[t]) && Next(u, s, a).Some? && !StepOf(a, t)
    ensures var s', c := Next(u, s, a).value, s.txs[t].job.conversation;
      && t in s'.txs && s'.txs[t] == s.txs[t]
      && c in s.db.conversations && c in s'.db.conversations && s'.db.conversations[c] == s.db.conversations[c]
  {
    assert s.rowLocks[s.txs[t].job.conversation] == t;
    if a.Advance? && HoldsRow(s.txs[a.tx]) {
      assert s.rowLocks[s.txs[a.tx].job.conversation] == a.tx;
    }
    if a.Advance? { assert FreshReads(u, s.db, s.txs[a.tx]); }
    hide PinnedBy, MaxSequence, Without;
  }

  /**
   * Pinning what is already pinned, or unpinning what is not: once t holds the row, whatever the
   * others do, even at the limit, t can only commit (or be rolled back from outside), can always
   * commit next, and writes nothing.
   */
  lemma {:induction false} RepinSucceeds(u: Setup, s: System, t: int, actions: seq<Action>)
    requires Invariant(u, s) && IsRun(u, s, actions)
    requires t in s.txs && s.txs[t].job.UpdatePinned? && s.txs[t].stage.RowHeld?
    requires s.db.conversations[s.txs[t].job.conversation].pinned == s.txs[t].job.pinned
    ensures var s' := After(u, s, actions);
      && t in s'.txs
      && (|| s'.txs[t].stage == RowHeld
          || s'.txs[t].stage == Finished(Committed)
          || s'.txs[t].stage == Finished(RolledBack))
      && (s'.txs[t].stage == RowHeld ==>
            Next(u, s', Advance(t)).Some? && Next(u, s', Advance(t)).value.db == s'.db
            && Next(u, s', Advance(t)).value.txs[t].stage == Finished(Committed))
  {
    assert FreshReads(u, s.db, s.txs[t]);
    RepinningRun(u, s, t, actions);
  }

  lemma {:induction false} RepinningRun(u: Setup, s: System, t: int, actions: seq<Action>)
    requires Invariant(u, s) && IsRun(u, s, actions) && Repinning(s, t)
    ensures Repinning(After(u, s, actions), t)
    decreases |actions|
  {
    if actions != [] {
      NextKeeps(u, s, actions[0]);
      RepinningStays(u, s, t, actions[0]);
      hide Invariant, Repinning, Next;
      RepinningRun(u, Next(u, s, actions[0]).value, t, actions[1..]);
    }
  }

  /** A pin is refused exactly when the owner is at the limit, and then nothing changes. */
  lemma PinRefusedIffAtLimit(u: Setup, s: System, t: int)
    requires Invariant(u, s) && t in s.txs && s.txs[t].job.UpdatePinned? && s.txs[t].stage.RowHeld?
    requires s.txs[t].job.pinned && !s.db.conversations[s.txs[t].job.conversation].pinned
    ensures var s' := Next(u, s, Advance(t));
            && s'.Some? && s'.value.db == s.db
            && (s'.value.txs[t].stage == Finished(PinLimitExceeded) <==>
                |PinnedBy(s.db, s.txs[t].job.owner)| == u.limit)
  {
    assert FreshReads(u, s.db, s.txs[t]);
    assert |PinnedBy(s.db, s.txs[t].job.owner)| <= u.limit;
  }

  // ---------------------------------------------------------------- progress

  predicate Active(s: System, t: int) {
    t in s.txs && !s.txs[t].stage.Finished?
  }

  /** The locks cannot deadlock: while a transaction is active, some active transaction can advance. */
  lemma NoDeadlock(u: Setup, s: System, t: int) returns (o: int)
    requires Invariant(u, s) && Active(s, t)
    ensures Active(s, o) && Next(u, s, Advance(o)).Some?
  {
    o := t;
    if Next(u, s, Advance(o)).None? && s.txs[o].job.UpdatePinned? && s.txs[o].stage.Begun? {
      o := s.advisoryLocks[u.hash(s.txs[o].job.owner)];
      assert Active(s, o);
    }
    if Next(u, s, Advance(o)).None? {
      RowHolderAdvances(u, s, o);
      o := s.rowLocks[s.txs[o].job.conversation];
    }
  }

  /** Whoever is blocked by a row lock is blocked by a transaction that can advance. */
  lemma RowHolderAdvances(u: Setup, s: System, o: int)
    requires Invariant(u, s) && Active(s, o) && Next(u, s, Advance(o)).None?
    requires !(s.txs[o].job.UpdatePinned? && s.txs[o].stage.Begun?)
    ensures var c := s.txs[o].job.conversation;
            c in s.rowLocks && Active(s, s.rowLocks[c]) && Next(u, s, Advance(s.rowLocks[c])).Some?
  {
    assert FreshReads(u, s.db, s.txs[o]);
    var c := s.txs[o].job.conversation;
    assert c in s.db.conversations.Keys ==> c in s.db.messages.Keys && c in s.db.events.Keys;
    assert c in s.rowLocks;
    var h := s.rowLocks[c];
    assert FreshReads(u, s.db, s.txs[h]);
  }
}
