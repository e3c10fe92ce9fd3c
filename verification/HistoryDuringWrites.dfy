/**
 * Loading a history while the conversation is written: every statement of the reader sees the state
 * some number of actions into one run of the concurrent writes, and later statements see later states.
 */
module HistoryDuringWrites {
  import opened Outcomes
  import opened ConversationHistory
  import opened ConversationRuns
  import E = ConversationEffects
  import W = ConversationWrites

  /** What a message row holds besides its conversation and its sequence; the stored content encodes it. */
  datatype Columns = Columns(id: int, role: Role, content: string)

  /** `message_from_record` */
  function FromRecord(columns: string -> Columns, c: int, row: W.Stored): Message {
    var rest := columns(row.content);
    Message(rest.id, c, rest.role, rest.content, row.sequence)
  }

  function FromRecords(columns: string -> Columns, c: int, rows: seq<W.Stored>): (messages: seq<Message>)
    ensures |messages| == |rows|
  {
    seq(|rows|, i requires 0 <= i < |rows| => FromRecord(columns, c, rows[i]))
  }

  /** The committed messages of c after the first k actions, or nothing if c does not exist then. */
  ghost function Committed(u: W.Setup, actions: seq<W.Action>, k: nat, columns: string -> Columns,
      c: int): Option<seq<Message>>
    requires W.IsRun(u, W.EmptySystem, actions) && k <= |actions|
  {
    var db := StateAt(u, actions, k).db;
    if c in db.conversations && c in db.messages then Some(FromRecords(columns, c, db.messages[c])) else None
  }

  ghost predicate Gapless(messages: seq<Message>) {
    forall i | 0 <= i < |messages| :: messages[i].sequence == i + 1
  }

  lemma CommittedIsGapless(u: W.Setup, actions: seq<W.Action>, k: nat, columns: string -> Columns, c: int)
    requires W.IsRun(u, W.EmptySystem, actions) && k <= |actions|
    ensures var log := Committed(u, actions, k, columns, c);
      log.Some? ==> Gapless(log.value) && Ascending(log.value) && |log.value| <= |actions|
    ensures var db := StateAt(u, actions, k).db; c in db.conversations <==> Committed(u, actions, k, columns, c).Some?
  {
    StateGood(u, actions, k);
    var db := StateAt(u, actions, k).db;
    assert c in db.conversations.Keys <==> c in db.messages.Keys;
    if c in db.messages { LogBounded(u, actions, k, c); }
    hide StateAt, W.IsRun;
  }

  lemma CommittedGrows(u: W.Setup, actions: seq<W.Action>, i: nat, j: nat, columns: string -> Columns, c: int)
    requires W.IsRun(u, W.EmptySystem, actions) && i <= j <= |actions| && CreatedOnce(actions, c)
    ensures var before, after := Committed(u, actions, i, columns, c), Committed(u, actions, j, columns, c);
      before.Some? && after.Some? ==> before.value <= after.value
  {
    if Committed(u, actions, i, columns, c).Some? && Committed(u, actions, j, columns, c).Some? {
      RunLogsGrow(u, actions, i, j, c);
    }
    hide StateAt, W.IsRun;
  }

  /**
   * One reader of conversation c beside one run: its k-th page looks for the conversation after
   * looked(k) actions of the run, and selects after selected(k).
   */
  datatype Reading = Reading(
    u: W.Setup, actions: seq<W.Action>, columns: string -> Columns, c: int, looked: nat -> nat, selected: nat -> nat)

  /** The statements come in order, and the conversation is created at most once. */
  ghost predicate Beside(rd: Reading) {
    && W.IsRun(rd.u, W.EmptySystem, rd.actions) && CreatedOnce(rd.actions, rd.c)
    && (forall k: nat :: rd.looked(k) <= |rd.actions|)
    && (forall k: nat :: rd.selected(k) <= |rd.actions|)
    && (forall i: nat, j: nat | i <= j :: rd.looked(i) <= rd.selected(j))
    && (forall i: nat, j: nat | i <= j :: rd.selected(i) <= rd.selected(j))
    && (forall i: nat, j: nat | i < j :: rd.selected(i) <= rd.looked(j))
  }

  ghost predicate Finds(rd: Reading, k: nat)
    requires Beside(rd)
  {
    rd.c in StateAt(rd.u, rd.actions, rd.looked(k)).db.conversations
  }

  ghost function Selects(rd: Reading, k: nat): Option<seq<Message>>
    requires Beside(rd)
  {
    Committed(rd.u, rd.actions, rd.selected(k), rd.columns, rd.c)
  }

  lemma SelectsGapless(rd: Reading, k: nat)
    requires Beside(rd)
    ensures var log := Selects(rd, k);
      log.Some? ==> Gapless(log.value) && Ascending(log.value) && |log.value| <= |rd.actions|
  {
    hide StateAt, W.IsRun, Committed, CreatedOnce;
    CommittedIsGapless(rd.u, rd.actions, rd.selected(k), rd.columns, rd.c);
  }

  lemma SelectsGrow(rd: Reading, i: nat, j: nat)
    requires Beside(rd) && i <= j
    ensures Selects(rd, i).Some? && Selects(rd, j).Some? ==> Selects(rd, i).value <= Selects(rd, j).value
  {
    hide StateAt, W.IsRun, Committed, CreatedOnce;
    CommittedGrows(rd.u, rd.actions, rd.selected(i), rd.selected(j), rd.columns, rd.c);
  }

  /** What the reader's statements see of the run. */
  ghost predicate Sees(rd: Reading, found: nat -> bool, snapshots: nat -> Option<seq<Message>>)
    requires Beside(rd)
  {
    && (forall k: nat :: found(k) == Finds(rd, k))
    && (forall k: nat :: snapshots(k) == Selects(rd, k))
  }

  /** Committed writes never disturb a reader but by appending or deleting. */
  lemma WritesAreAppending(rd: Reading, found: nat -> bool, snapshots: nat -> Option<seq<Message>>)
    requires Beside(rd) && Sees(rd, found, snapshots)
    ensures Appending(snapshots, |rd.actions|)
    ensures forall k: nat :: snapshots(k).Some? ==> Gapless(snapshots(k).value)
  {
    hide Selects, Finds, Gapless, Beside;
    forall k: nat
      ensures snapshots(k).Some? ==>
        Gapless(snapshots(k).value) && Ascending(snapshots(k).value) && |snapshots(k).value| <= |rd.actions|
    {
      SelectsGapless(rd, k);
    }
    forall i: nat, j: nat | i <= j && snapshots(i).Some? && snapshots(j).Some?
      ensures snapshots(i).value <= snapshots(j).value
    {
      SelectsGrow(rd, i, j);
    }
  }

  /** What a history loaded beside the run is. */
  ghost predicate LoadedBeside(rd: Reading, history: seq<Message>, pages: nat)
    requires Beside(rd) && pages >= 1
  {
    && (forall i | 0 <= i < |history| :: history[i].sequence == i + 1)
    && match Selects(rd, pages - 1)
       case Some(log) =>
         history == log && forall k: nat | k < pages :: Selects(rd, k).Some? && Selects(rd, k).value <= history
       case None =>
         && |history| == MAX_HISTORY_PAGE_SIZE * (pages - 1)
         && (pages > 1 ==> Selects(rd, pages - 2).Some? && history < Selects(rd, pages - 2).value)
  }

  lemma LoadedIsGapless(rd: Reading, found: nat -> bool, snapshots: nat -> Option<seq<Message>>,
      history: seq<Message>, pages: nat)
    requires Beside(rd) && Sees(rd, found, snapshots) && pages >= 1 && Loaded(found, snapshots, history, pages)
    ensures LoadedBeside(rd, history, pages)
  {
    hide Beside, Selects, Finds;
    SelectsGapless(rd, pages - 1);
    if pages > 1 { SelectsGapless(rd, pages - 2); }
    assert snapshots(pages - 1) == Selects(rd, pages - 1);
    forall k: nat | k < pages && Selects(rd, pages - 1).Some?
      ensures Selects(rd, k).Some? && Selects(rd, k).value <= Selects(rd, pages - 1).value
    {
      assert snapshots(k) == Selects(rd, k);
      SelectsGrow(rd, k, pages - 1);
    }
  }

  /**
   * In every interleaving of the loading loop with the writes of a run, the loaded history is 1..m
   * without a gap, or the conversation is reported missing.  It is everything committed when the last
   * page was selected, and extends all that earlier pages saw; unless the conversation was deleted
   * just before that selection: then it is the messages of the full pages before.
   */
  method LoadDuringWrites(ghost rd: Reading, found: nat -> bool, snapshots: nat -> Option<seq<Message>>)
    returns (r: Result<seq<Message>, HistoryError>, pages: nat)
    requires Beside(rd) && Sees(rd, found, snapshots)
    ensures pages >= 1
    ensures r.Err? ==> r.error == ConversationNotFound && !Finds(rd, pages - 1)
    ensures r.Ok? ==> LoadedBeside(rd, r.value, pages)
  {
    hide Beside, Finds, Selects, Loaded, LoadedBeside, FullPages, Appending, Gapless;
    WritesAreAppending(rd, found, snapshots);
    r, pages := LoadHistory(found, snapshots, |rd.actions|);
    if r.Ok? { LoadedIsGapless(rd, found, snapshots, r.value, pages); }
    assert found(pages - 1) == Finds(rd, pages - 1);
  }

  /**
   * A history that is not cut off is exactly what committed appends had brought by then, in commit
   * order: message i has the columns of the i-th appended content, the conversation and number i + 1.
   */
  lemma LoadedIsAppended(rd: Reading, history: seq<Message>, pages: nat)
    requires Beside(rd) && pages >= 1 && LoadedBeside(rd, history, pages) && Selects(rd, pages - 1).Some?
    ensures var appended := E.AppendedTo(E.Writes(rd.u, rd.actions, rd.selected(pages - 1)), rd.c);
      && appended.Some? && |history| == |appended.value|
      && forall i | 0 <= i < |history| ::
           var row := rd.columns(appended.value[i]);
           history[i] == Message(row.id, rd.c, row.role, row.content, i + 1)
  {
    E.MessagesAreAppends(rd.u, rd.actions, rd.selected(pages - 1), rd.c);
    hide E.Writes, E.AppendedTo, StateAt, W.IsRun, CreatedOnce;
  }
}
