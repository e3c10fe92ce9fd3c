/**
 * Reading one conversation's messages: forward pages after a cursor, the newest messages up to
 * a cut, and the loop that loads a whole history page by page while others append or delete.
 *
 * A snapshot is what one statement sees: the conversation's committed messages ordered by
 * sequence, or nothing when the conversation does not exist.
 */
module ConversationHistory {
  import opened Outcomes

  datatype Role = System | User | Assistant

  datatype Message = Message(id: int, conversation: int, role: Role, content: string, sequence: int)

  datatype HistoryError = ConversationNotFound | InvalidCursor

  const MAX_HISTORY_PAGE_SIZE := 200

  ghost predicate Ascending(log: seq<Message>) {
    && (forall i | 0 <= i < |log| :: log[i].sequence > 0)
    && (forall i, j | 0 <= i < j < |log| :: log[i].sequence < log[j].sequence)
  }

  /** `WHERE sequence > after`; no cursor means everything. */
  function After(log: seq<Message>, after: Option<int>): seq<Message> {
    if log == [] then []
    else
      (if after.None? || log[0].sequence > after.value then [log[0]] else []) + After(log[1..], after)
  }

  /** `WHERE sequence <= through` */
  function UpTo(log: seq<Message>, through: int): seq<Message> {
    if log == [] then []
    else (if log[0].sequence <= through then [log[0]] else []) + UpTo(log[1..], through)
  }

  function Limit(records: seq<Message>, n: nat): seq<Message> {
    if |records| <= n then records else records[..n]
  }

  function Reversed(s: seq<Message>): seq<Message> {
    seq(|s|, i requires 0 <= i < |s| => s[|s| - 1 - i])
  }

  datatype HistoryPage = HistoryPage(messages: seq<Message>, hasMore: bool, nextAfterSequence: Option<int>)

  function ReadHistory(log: seq<Message>, limit: nat, after: Option<int>): HistoryPage
    requires limit >= 1
  {
    var records := Limit(After(log, after), limit + 1);
    var hasMore := |records| > limit;
    var page := Limit(records, limit);
    HistoryPage(page, hasMore, if hasMore then Some(page[|page| - 1].sequence) else None)
  }

  function ReadRecentMessages(log: seq<Message>, through: int, limit: nat): seq<Message> {
    Reversed(Limit(Reversed(UpTo(log, through)), limit))
  }

  // ---------------------------------------------------------------- what the queries select

  lemma {:induction false} AfterIsSuffix(log: seq<Message>, k: nat, after: Option<int>)
    requires Ascending(log) && k <= |log|
    requires after.None? ==> k == 0
    requires after.Some? ==>
      && (forall i | 0 <= i < k :: log[i].sequence <= after.value)
      && (forall i | k <= i < |log| :: log[i].sequence > after.value)
    ensures After(log, after) == log[k..]
  {
    if log != [] {
      AfterIsSuffix(log[1..], if k == 0 then 0 else k - 1, after);
      if k == 0 {
        assert log == [log[0]] + log[1..];
      } else {
        assert log[k..] == log[1..][k - 1..];
      }
    }
  }

  lemma {:induction false} UpToIsPrefix(log: seq<Message>, through: int) returns (k: nat)
    requires Ascending(log)
    ensures k <= |log| && UpTo(log, through) == log[..k]
    ensures forall i | 0 <= i < k :: log[i].sequence <= through
    ensures forall i | k <= i < |log| :: log[i].sequence > through
  {
    if log == [] {
      k := 0;
    } else {
      var k' := UpToIsPrefix(log[1..], through);
      if log[0].sequence <= through {
        k := k' + 1;
        assert log[..k] == [log[0]] + log[1..][..k'];
        assert forall i | 1 <= i < k :: log[i] == log[1..][i - 1];
        assert forall i | k <= i < |log| :: log[i] == log[1..][i - 1];
      } else {
        k := 0;
        assert log[1..] != [] ==> log[1..][0].sequence > through;
      }
    }
  }

  lemma ReversedTwice(s: seq<Message>, n: nat)
    requires n <= |s|
    ensures Reversed(Reversed(s)[..n]) == s[|s| - n..]
  {
  }

  /** The bounded read returns the last messages up to the cut, in order. */
  lemma RecentIsSuffix(log: seq<Message>, through: int, limit: nat)
    ensures var all := UpTo(log, through);
            ReadRecentMessages(log, through, limit) == if |all| <= limit then all else all[|all| - limit..]
  {
    var all := UpTo(log, through);
    assert Reversed(all)[..|all|] == Reversed(all);
    ReversedTwice(all, if |all| <= limit then |all| else limit);
  }

  // ---------------------------------------------------------------- the whole history

  /** What the store may do between two statements: append messages in order, or delete the conversation. */
  ghost predicate Appending(snapshots: nat -> Option<seq<Message>>, most: nat) {
    && (forall i: nat :: snapshots(i).Some? ==> Ascending(snapshots(i).value) && |snapshots(i).value| <= most)
    && (forall i: nat, j: nat :: i <= j && snapshots(i).Some? && snapshots(j).Some? ==>
          snapshots(i).value <= snapshots(j).value)
  }

  /** A page read after the first m messages returns the next ones. */
  lemma PageAfterPrefix(log: seq<Message>, m: nat, limit: nat)
    requires Ascending(log) && m <= |log| && limit >= 1
    ensures var after := if m == 0 then None else Some(log[m - 1].sequence);
            var page := ReadHistory(log, limit, after);
            var e := if |log| - m <= limit then |log| else m + limit;
            && page.messages == log[m..e] && page.hasMore == (e < |log|)
            && (page.hasMore ==> page.nextAfterSequence == Some(log[e - 1].sequence))
  {
    var after := if m == 0 then None else Some(log[m - 1].sequence);
    AfterIsSuffix(log, m, after);
    LimitTwice(log, m, limit);
  }

  lemma LimitTwice(log: seq<Message>, m: nat, limit: nat)
    requires m <= |log|
    ensures var e := if |log| - m <= limit then |log| else m + limit;
            Limit(Limit(log[m..], limit + 1), limit) == log[m..e]
  {
    if |log| - m > limit {
      assert log[m..][..limit] == log[m..m + limit];
      if |log| - m > limit + 1 {
        assert log[m..][..limit + 1][..limit] == log[m..][..limit];
      }
    }
  }

  function CursorAt(history: seq<Message>): Option<int> {
    if history == [] then None else Some(history[|history| - 1].sequence)
  }

  lemma JoinSlices(log: seq<Message>, history: seq<Message>, e: nat)
    requires history <= log && |history| <= e <= |log|
    ensures history + log[|history|..e] == log[..e]
  {
    assert history == log[..|history|];
  }

  /** Extending a prefix of the snapshot by the page after it gives a longer prefix, or all of it. */
  lemma PageExtendsPrefix(log: seq<Message>, history: seq<Message>, limit: nat)
    requires Ascending(log) && history <= log && limit >= 1
    ensures var page := ReadHistory(log, limit, CursorAt(history));
            var longer := history + page.messages;
            && longer <= log
            && (!page.hasMore ==> longer == log && |page.messages| <= limit)
            && (page.hasMore ==>
                  && longer < log && |page.messages| == limit
                  && page.nextAfterSequence == CursorAt(longer)
                  && (history != [] ==> page.nextAfterSequence.value > CursorAt(history).value))
  {
    hide ReadHistory;
    var m := |history|;
    var e := if |log| - m <= limit then |log| else m + limit;
    assert history != [] ==> history[m - 1] == log[m - 1];
    PageAfterPrefix(log, m, limit);
    JoinSlices(log, history, e);
    assert log[..|log|] == log;
    if e < |log| && m > 0 {
      assert log[m - 1].sequence < log[e - 1].sequence;
    }
  }

  /** The rows a message query finds: none once the conversation is deleted. */
  function Rows(snapshot: Option<seq<Message>>): seq<Message> {
    if snapshot.Some? then snapshot.value else []
  }

  /** The first pages found their conversation, and each saw more messages than it could take. */
  ghost predicate FullPages(found: nat -> bool, snapshots: nat -> Option<seq<Message>>, pages: nat) {
    forall k: nat | k < pages ::
      found(k) && snapshots(k).Some? && |snapshots(k).value| > MAX_HISTORY_PAGE_SIZE * (k + 1)
  }

  /** The loop after some full pages: a proper part of what the last of them saw. */
  ghost predicate LoadedSoFar(found: nat -> bool, snapshots: nat -> Option<seq<Message>>, history: seq<Message>,
      pages: nat) {
    && FullPages(found, snapshots, pages) && |history| == MAX_HISTORY_PAGE_SIZE * pages
    && (pages > 0 ==> snapshots(pages - 1).Some? && history < snapshots(pages - 1).value)
  }

  /**
   * A loaded history: exactly what the last page's query saw, in no more pages than that needs; or,
   * if the conversation was deleted after that page had found it, the full pages before.
   */
  ghost predicate Loaded(found: nat -> bool, snapshots: nat -> Option<seq<Message>>, history: seq<Message>, pages: nat)
    requires pages >= 1
  {
    && FullPages(found, snapshots, pages - 1) && found(pages - 1)
    && match snapshots(pages - 1)
       case Some(log) =>
         history == log && pages == if log == [] then 1 else (|log| + MAX_HISTORY_PAGE_SIZE - 1) / MAX_HISTORY_PAGE_SIZE
       case None => LoadedSoFar(found, snapshots, history, pages - 1)
  }

  /** What the next page holds, whether or not the conversation is still there. */
  lemma NextPage(snapshot: Option<seq<Message>>, history: seq<Message>)
    requires snapshot.Some? ==> Ascending(snapshot.value) && history <= snapshot.value
    ensures var page := ReadHistory(Rows(snapshot), MAX_HISTORY_PAGE_SIZE, CursorAt(history));
      var longer := history + page.messages;
      && (snapshot.None? ==> !page.hasMore && longer == history)
      && (snapshot.Some? ==>
            && (!page.hasMore ==> longer == snapshot.value && |page.messages| <= MAX_HISTORY_PAGE_SIZE)
            && (page.hasMore ==>
                  && longer < snapshot.value && |page.messages| == MAX_HISTORY_PAGE_SIZE
                  && page.nextAfterSequence == CursorAt(longer)
                  && (history != [] ==> page.nextAfterSequence.value > CursorAt(history).value)))
  {
    if snapshot.Some? { PageExtendsPrefix(snapshot.value, history, MAX_HISTORY_PAGE_SIZE); }
  }

  /** One page more: the loop is done, or a full page further. */
  lemma PageRead(found: nat -> bool, snapshots: nat -> Option<seq<Message>>, most: nat, history: seq<Message>,
      pages: nat)
    requires Appending(snapshots, most) && LoadedSoFar(found, snapshots, history, pages) && found(pages)
    ensures var page := ReadHistory(Rows(snapshots(pages)), MAX_HISTORY_PAGE_SIZE, CursorAt(history));
      var longer := history + page.messages;
      && (!page.hasMore ==> Loaded(found, snapshots, longer, pages + 1))
      && (page.hasMore ==>
            && LoadedSoFar(found, snapshots, longer, pages + 1) && |history| < |longer| <= most
            && page.nextAfterSequence == CursorAt(longer)
            && (history != [] ==> page.nextAfterSequence.value > CursorAt(history).value))
  {
    hide ReadHistory, FullPages;
    NextPage(snapshots(pages), history);
    var page := ReadHistory(Rows(snapshots(pages)), MAX_HISTORY_PAGE_SIZE, CursorAt(history));
    if page.hasMore { OneMoreFull(found, snapshots, pages + 1); }
  }

  lemma OneMoreFull(found: nat -> bool, snapshots: nat -> Option<seq<Message>>, pages: nat)
    requires pages > 0 && FullPages(found, snapshots, pages - 1)
    requires found(pages - 1) && snapshots(pages - 1).Some?
      && |snapshots(pages - 1).value| > MAX_HISTORY_PAGE_SIZE * pages
    ensures FullPages(found, snapshots, pages)
  {
  }

  /**
   * `_load_history`.  Page k reads with two statements: the first says whether the conversation was
   * found, the second selects messages and sees snapshots(k).  No snapshot exceeds `most`.
   *
   * However appends fall between the statements, the cursor check never fires and nothing is lost,
   * repeated or torn; only a deletion committing between the two statements of the last page cuts
   * the result off.
   */
  method LoadHistory(found: nat -> bool, snapshots: nat -> Option<seq<Message>>, ghost most: nat)
    returns (r: Result<seq<Message>, HistoryError>, pages: nat)
    requires Appending(snapshots, most)
    ensures pages >= 1
    ensures r.Ok? ==> Loaded(found, snapshots, r.value, pages)
    ensures r.Err? ==> r.error == ConversationNotFound && FullPages(found, snapshots, pages - 1) && !found(pages - 1)
  {
    var history: seq<Message> := [];
    var after: Option<int> := None;
    pages := 0;
    while true
      invariant LoadedSoFar(found, snapshots, history, pages) && after == CursorAt(history)
      decreases most - |history|
    {
      hide ReadHistory, Loaded, Appending;
      if !found(pages) { return Err(ConversationNotFound), pages + 1; }
      PageRead(found, snapshots, most, history, pages);
      hide LoadedSoFar;
      var page := ReadHistory(Rows(snapshots(pages)), MAX_HISTORY_PAGE_SIZE, after);
      history := history + page.messages;
      pages := pages + 1;
      if !page.hasMore { return Ok(history), pages; }
      if page.nextAfterSequence.None? || (after.Some? && page.nextAfterSequence.value <= after.value) {
        assert false;
        return Err(InvalidCursor), pages;
      }
      after := page.nextAfterSequence;
    }
  }

  /**
   * The truncation happens: with more than one page of messages, and a deletion that commits after
   * the second page has found the conversation and before it selects, one page is returned as if it
   * were everything.
   */
  method TruncatedByDeletion(log: seq<Message>) returns (r: Result<seq<Message>, HistoryError>, pages: nat)
    requires Ascending(log) && |log| > 200
    ensures r == Ok(log[..200]) && pages == 2
  {
    var found: nat -> bool := k => k <= 1;
    var snapshots: nat -> Option<seq<Message>> := k => if k == 0 then Some(log) else None;
    r, pages := LoadHistory(found, snapshots, |log|);
    assert FullPages(found, snapshots, pages - 1) ==> pages <= 2 by { assert snapshots(1).None?; }
    assert found(pages - 1) && snapshots(0) == Some(log);
    assert r.value == log[..|r.value|];
  }
}
