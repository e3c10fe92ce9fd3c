/**
 * Keyset pages of an owner's rows, newest first within two tiers (pinned, then the rest), and
 * of the task list, which is the same order with a single tier.  A table is the set of rows a
 * query sees; `payload` stands for the columns that do not take part in the order.
 */
module KeysetPaging {
  import opened Outcomes

  datatype Key = Key(pinned: bool, updatedAt: int, id: int)

  datatype Row = Row(key: Key, owner: string, payload: string)

  datatype Page = Page(rows: seq<Row>, hasMore: bool, nextCursor: Option<Key>)

  /** `ORDER BY is_pinned DESC, updated_at DESC, id DESC`: a is listed before b. */
  predicate Before(a: Key, b: Key) {
    if a.pinned != b.pinned then a.pinned
    else if a.updatedAt != b.updatedAt then a.updatedAt > b.updatedAt
    else a.id > b.id
  }

  /** The primary key. */
  ghost predicate UniqueIds(s: set<Row>) {
    forall x, y | x in s && y in s && x.key.id == y.key.id :: x == y
  }

  ghost predicate Sorted(q: seq<Row>) {
    forall i, j | 0 <= i < j < |q| :: Before(q[i].key, q[j].key)
  }

  ghost function Elements(q: seq<Row>): set<Row> {
    set x | x in q
  }

  // ---------------------------------------------------------------- ordering a set of rows

  ghost predicate IsFirst(s: set<Row>, m: Row) {
    m in s && forall x | x in s && x != m :: Before(m.key, x.key)
  }

  lemma {:induction false} FirstExists(s: set<Row>) returns (m: Row)
    requires UniqueIds(s) && s != {}
    ensures IsFirst(s, m)
  {
    m :| m in s;
    var rest := s - {m};
    assert forall x | x in s :: x == m || x in rest;
    if rest != {} {
      var m' := FirstExists(rest);
      assert m' in s && m'.key.id != m.key.id;
      if Before(m'.key, m.key) { m := m'; }
    }
  }

  lemma FirstExistsQuantified(s: set<Row>)
    requires UniqueIds(s) && s != {}
    ensures exists m :: IsFirst(s, m)
  {
    var m := FirstExists(s);
  }

  ghost function OrderBy(s: set<Row>): seq<Row>
    requires UniqueIds(s)
    decreases |s|
  {
    if s == {} then []
    else
      FirstExistsQuantified(s);
      var m :| IsFirst(s, m);
      [m] + OrderBy(s - {m})
  }

  /** q lists exactly s, in order. */
  ghost predicate Lists(q: seq<Row>, s: set<Row>) {
    Sorted(q) && Elements(q) == s && |q| == |s|
  }

  lemma ListsCons(s: set<Row>, m: Row, q: seq<Row>)
    requires IsFirst(s, m) && Lists(q, s - {m})
    ensures Lists([m] + q, s)
  {
    var all := [m] + q;
    forall x ensures x in Elements(all) <==> x in s {
      assert x in q <==> x in Elements(q);
    }
    forall i, j | 0 <= i < j < |all| ensures Before(all[i].key, all[j].key) {
      assert all[j] == q[j - 1] && q[j - 1] in Elements(q);
      if i > 0 { assert all[i] == q[i - 1]; }
    }
  }

  lemma {:induction false} OrderByFacts(s: set<Row>)
    requires UniqueIds(s)
    ensures Lists(OrderBy(s), s)
    decreases |s|
  {
    var q := OrderBy(s);
    if s != {} {
      FirstExistsQuantified(s);
      var rest := s - {q[0]};
      OrderByFacts(rest);
      ListsCons(s, q[0], OrderBy(rest));
    }
  }

  /** There is one sorted enumeration of a set. */
  lemma {:induction false} SortedUnique(p: seq<Row>, q: seq<Row>)
    requires Sorted(p) && Sorted(q) && Elements(p) == Elements(q)
    ensures p == q
  {
    assert q != [] ==> q[0] in Elements(q);
    if p != [] {
      assert p[0] in Elements(q);
      assert q[0] in Elements(p);
      assert p[0] == q[0];
      forall x ensures x in Elements(p[1..]) <==> x in Elements(q[1..]) {
        TailElements(p, x);
        TailElements(q, x);
      }
      SortedUnique(p[1..], q[1..]);
    }
  }

  lemma TailElements(q: seq<Row>, x: Row)
    requires Sorted(q) && q != []
    ensures x in Elements(q[1..]) <==> x in Elements(q) && x != q[0]
  {
    if x in q && x != q[0] {
      var i :| 0 <= i < |q| && q[i] == x;
      assert q[1..][i - 1] == x;
    }
    if x in q[1..] {
      var i :| 0 <= i < |q[1..]| && q[1..][i] == x;
      assert q[i + 1] == x && Before(q[0].key, x.key);
    }
  }

  // ---------------------------------------------------------------- the two list queries

  /** The cursor condition of the conversation list, with the extra branch for a pinned cursor. */
  predicate ConversationAfter(k: Key, c: Key) {
    || (c.pinned && !k.pinned)
    || (k.pinned == c.pinned && k.updatedAt < c.updatedAt)
    || (k.pinned == c.pinned && k.updatedAt == c.updatedAt && k.id < c.id)
  }

  /** The cursor condition of the task list. */
  predicate TaskAfter(k: Key, c: Key) {
    k.updatedAt < c.updatedAt || (k.updatedAt == c.updatedAt && k.id < c.id)
  }

  ghost function Selected(table: set<Row>, owner: string, cursor: Option<Key>): set<Row> {
    set r | r in table && r.owner == owner && (cursor.None? || ConversationAfter(r.key, cursor.value))
  }

  ghost function PageOf(records: seq<Row>, limit: nat): Page
    requires limit >= 1
  {
    var fetched := if |records| <= limit + 1 then records else records[..limit + 1];
    var hasMore := |fetched| > limit;
    var rows := if hasMore then fetched[..limit] else fetched;
    Page(rows, hasMore, if hasMore then Some(rows[|rows| - 1].key) else None)
  }

  /** `list_owned` of the conversation repository. */
  ghost function ListOwned(table: set<Row>, owner: string, limit: nat, cursor: Option<Key>): Page
    requires UniqueIds(table) && limit >= 1
  {
    PageOf(OrderBy(Selected(table, owner, cursor)), limit)
  }

  /** `list_owned` of the task repository: a row set in which nothing is pinned. */
  ghost function ListOwnedTasks(table: set<Row>, owner: string, limit: nat, cursor: Option<Key>): Page
    requires UniqueIds(table) && limit >= 1
  {
    PageOf(OrderBy(set r | r in table && r.owner == owner && (cursor.None? || TaskAfter(r.key, cursor.value))), limit)
  }

  /** The task list is the conversation list restricted to its lower tier, so what follows holds of both. */
  lemma TasksAreOneTier(table: set<Row>, owner: string, limit: nat, cursor: Option<Key>)
    requires UniqueIds(table) && limit >= 1
    requires forall r | r in table :: !r.key.pinned
    requires cursor.Some? ==> !cursor.value.pinned
    ensures ListOwnedTasks(table, owner, limit, cursor) == ListOwned(table, owner, limit, cursor)
    ensures cursor.Some? ==> forall r | r in ListOwnedTasks(table, owner, limit, cursor).rows ::
        TaskAfter(r.key, cursor.value)
    ensures ListOwnedTasks(table, owner, limit, cursor).nextCursor.Some? ==>
              !ListOwnedTasks(table, owner, limit, cursor).nextCursor.value.pinned
  {
    var tasks := set r | r in table && r.owner == owner && (cursor.None? || TaskAfter(r.key, cursor.value));
    assert tasks == Selected(table, owner, cursor);
    OrderByFacts(tasks);
    var page := ListOwnedTasks(table, owner, limit, cursor);
    forall r | r in page.rows ensures r in tasks {
      assert r in OrderBy(tasks);
      assert r in Elements(OrderBy(tasks));
    }
  }

  /** The page of a sorted selection is its leading part, and the cursor is its last key. */
  ghost predicate IsPageOf(page: Page, q: seq<Row>, limit: nat)
    requires limit >= 1
  {
    && page.hasMore == (|q| > limit)
    && page.rows == (if page.hasMore then q[..limit] else q)
    && page.nextCursor == (if page.hasMore then Some(q[limit - 1].key) else None)
  }

  lemma PageFacts(table: set<Row>, owner: string, limit: nat, cursor: Option<Key>) returns (q: seq<Row>)
    requires UniqueIds(table) && limit >= 1
    ensures q == OrderBy(Selected(table, owner, cursor)) && Lists(q, Selected(table, owner, cursor))
    ensures IsPageOf(ListOwned(table, owner, limit, cursor), q, limit)
  {
    var s := Selected(table, owner, cursor);
    assert UniqueIds(s);
    hide OrderBy, Selected, Lists;
    q := OrderBy(s);
    OrderByFacts(s);
    CutIsPage(q, limit);
  }

  lemma CutIsPage(q: seq<Row>, limit: nat)
    requires limit >= 1
    ensures IsPageOf(PageOf(q, limit), q, limit)
  {
    if |q| > limit + 1 { assert q[..limit + 1][..limit] == q[..limit]; }
  }

  // ---------------------------------------------------------------- walking a table that does not change

  ghost function Walk(table: set<Row>, owner: string, limit: nat, cursor: Option<Key>): seq<Page>
    requires UniqueIds(table) && limit >= 1
    decreases |Selected(table, owner, cursor)|
  {
    var page := ListOwned(table, owner, limit, cursor);
    if page.hasMore then
      NextSelection(table, owner, limit, cursor);
      [page] + Walk(table, owner, limit, page.nextCursor)
    else [page]
  }

  ghost function AllRows(pages: seq<Page>): seq<Row> {
    if pages == [] then [] else pages[0].rows + AllRows(pages[1..])
  }

  /** In a sorted list, the elements from position k on are those after the one before k. */
  lemma SuffixElements(q: seq<Row>, k: nat, x: Row)
    requires Sorted(q) && 1 <= k <= |q|
    ensures x in q[k..] <==> x in q && Before(q[k - 1].key, x.key)
  {
    if x in q && Before(q[k - 1].key, x.key) {
      var i :| 0 <= i < |q| && q[i] == x;
      assert i < k - 1 ==> Before(q[i].key, q[k - 1].key);
      assert q[k..][i - k] == x;
    }
    if x in q[k..] {
      var i :| 0 <= i < |q[k..]| && q[k..][i] == x;
      assert q[k + i] == x;
    }
  }

  /** Moving the cursor to a row of the selection keeps exactly the rows listed after it. */
  lemma SelectAfter(table: set<Row>, owner: string, cursor: Option<Key>, m: Row)
    requires m in Selected(table, owner, cursor)
    ensures Selected(table, owner, Some(m.key)) == set x | x in Selected(table, owner, cursor) && Before(m.key, x.key)
  {
  }

  lemma RestOfList(s: set<Row>, q: seq<Row>, k: nat)
    requires UniqueIds(s) && Lists(q, s) && 1 <= k <= |q|
    ensures var rest := set x | x in s && Before(q[k - 1].key, x.key);
            OrderBy(rest) == q[k..] && |rest| == |s| - k
  {
    var rest := set x | x in s && Before(q[k - 1].key, x.key);
    forall x ensures x in rest <==> x in Elements(q[k..]) {
      SuffixElements(q, k, x);
      assert x in Elements(q) <==> x in q;
    }
    OrderByFacts(rest);
    SortedUnique(OrderBy(rest), q[k..]);
  }

  /** The next cursor selects exactly the rows this page did not reach. */
  lemma NextSelection(table: set<Row>, owner: string, limit: nat, cursor: Option<Key>)
    requires UniqueIds(table) && limit >= 1 && ListOwned(table, owner, limit, cursor).hasMore
    ensures var page := ListOwned(table, owner, limit, cursor);
            var q := OrderBy(Selected(table, owner, cursor));
            && |q| > limit
            && OrderBy(Selected(table, owner, page.nextCursor)) == q[limit..]
            && |Selected(table, owner, page.nextCursor)| == |Selected(table, owner, cursor)| - limit
  {
    var q := PageFacts(table, owner, limit, cursor);
    assert q[limit - 1] in Elements(q);
    SelectAfter(table, owner, cursor, q[limit - 1]);
    RestOfList(Selected(table, owner, cursor), q, limit);
  }

  /** ceil(n / limit), and one empty page when there is nothing. */
  ghost function PagesNeeded(n: nat, limit: nat): nat
    requires limit >= 1
  {
    if n <= limit then 1 else 1 + PagesNeeded(n - limit, limit)
  }

  /** It is the least number of pages that can hold n rows. */
  lemma {:induction false} PagesNeededIsLeast(n: nat, limit: nat)
    requires limit >= 1
    ensures var pages := PagesNeeded(n, limit);
            n <= pages * limit && (pages == 1 || (pages - 1) * limit < n)
  {
    if n > limit {
      PagesNeededIsLeast(n - limit, limit);
      var rest := PagesNeeded(n - limit, limit);
      assert (rest + 1) * limit == rest * limit + limit;
      assert rest * limit == (rest - 1) * limit + limit;
    }
  }

  lemma WalkUnfold(table: set<Row>, owner: string, limit: nat, cursor: Option<Key>)
    requires UniqueIds(table) && limit >= 1
    ensures var page := ListOwned(table, owner, limit, cursor);
            var pages := Walk(table, owner, limit, cursor);
            if page.hasMore then
              && AllRows(pages) == page.rows + AllRows(Walk(table, owner, limit, page.nextCursor))
              && |pages| == 1 + |Walk(table, owner, limit, page.nextCursor)|
            else
              AllRows(pages) == page.rows && |pages| == 1
  {
    var pages := Walk(table, owner, limit, cursor);
    var page := ListOwned(table, owner, limit, cursor);
    assert AllRows(pages) == page.rows + AllRows(pages[1..]);
    if page.hasMore {
      assert pages[1..] == Walk(table, owner, limit, page.nextCursor);
    } else {
      assert pages[1..] == [];
    }
  }

  lemma {:induction false} WalkRest(table: set<Row>, owner: string, limit: nat, cursor: Option<Key>)
    requires UniqueIds(table) && limit >= 1
    ensures AllRows(Walk(table, owner, limit, cursor)) == OrderBy(Selected(table, owner, cursor))
    ensures |Walk(table, owner, limit, cursor)| == PagesNeeded(|Selected(table, owner, cursor)|, limit)
    decreases |Selected(table, owner, cursor)|
  {
    var s, page := Selected(table, owner, cursor), ListOwned(table, owner, limit, cursor);
    var q := PageFacts(table, owner, limit, cursor);
    assert |q| == |s|;
    WalkUnfold(table, owner, limit, cursor);
    hide OrderBy, Selected, Lists, ListOwned, Walk, AllRows;
    if page.hasMore {
      NextSelection(table, owner, limit, cursor);
      WalkRest(table, owner, limit, page.nextCursor);
      assert q == q[..limit] + q[limit..];
    }
  }

  /**
   * Following the cursors returns the owner's whole list, pinned rows first, and either newest first, and
   * of two rows updated together the one with the greater id; in the least number of pages.
   */
  lemma WalkIsSortedList(table: set<Row>, owner: string, limit: nat)
    requires UniqueIds(table) && limit >= 1
    ensures var all := AllRows(Walk(table, owner, limit, None));
            && Sorted(all)
            && (forall i, j | 0 <= i < j < |all| ::
                  var a, b := all[i].key, all[j].key;
                  || (a.pinned && !b.pinned)
                  || (a.pinned == b.pinned && b.updatedAt < a.updatedAt)
                  || (a.pinned == b.pinned && b.updatedAt == a.updatedAt && b.id < a.id))
            && Elements(all) == (set r | r in table && r.owner == owner)
            && |all| == |set r | r in table && r.owner == owner|
            && |Walk(table, owner, limit, None)| == PagesNeeded(|all|, limit)
  {
    WalkRest(table, owner, limit, None);
    OrderByFacts(Selected(table, owner, None));
    assert Selected(table, owner, None) == (set r | r in table && r.owner == owner);
  }

  /** Every page but the last is full, and says so; the last one is not longer, and says so. */
  lemma {:induction false} PagesAreFull(table: set<Row>, owner: string, limit: nat, cursor: Option<Key>, i: nat)
    requires UniqueIds(table) && limit >= 1 && i < |Walk(table, owner, limit, cursor)|
    ensures var pages := Walk(table, owner, limit, cursor);
      if i + 1 < |pages| then
        pages[i].hasMore && |pages[i].rows| == limit && pages[i].nextCursor == Some(pages[i].rows[limit - 1].key)
      else
        !pages[i].hasMore && |pages[i].rows| <= limit && pages[i].nextCursor == None
    decreases i
  {
    var page := ListOwned(table, owner, limit, cursor);
    var q := PageFacts(table, owner, limit, cursor);
    if page.hasMore {
      NextSelection(table, owner, limit, cursor);
      if i > 0 { PagesAreFull(table, owner, limit, page.nextCursor, i - 1); }
    }
  }

  // ---------------------------------------------------------------- walking a table that changes between pages

  /** pages[i] was read from tables[i]; each cursor comes from the page before; the last page says it is last. */
  ghost predicate CompletedWalk(tables: seq<set<Row>>, owner: string, limit: nat, cursor: Option<Key>, pages: seq<Page>)
    requires limit >= 1 && forall i | 0 <= i < |tables| :: UniqueIds(tables[i])
  {
    && |tables| == |pages| && |pages| >= 1
    && pages[0] == ListOwned(tables[0], owner, limit, cursor)
    && if pages[0].hasMore then CompletedWalk(tables[1..], owner, limit, pages[0].nextCursor, pages[1..])
       else |pages| == 1
  }

  /** How often a row with this id is listed. */
  ghost function Times(rows: seq<Row>, id: int): nat {
    if rows == [] then 0 else (if rows[0].key.id == id then 1 else 0) + Times(rows[1..], id)
  }

  ghost function TimesListed(pages: seq<Page>, id: int): nat {
    if pages == [] then 0 else Times(pages[0].rows, id) + TimesListed(pages[1..], id)
  }

  lemma {:induction false} TimesZero(rows: seq<Row>, id: int)
    requires forall i | 0 <= i < |rows| :: rows[i].key.id != id
    ensures Times(rows, id) == 0
  {
    if rows != [] { TimesZero(rows[1..], id); }
  }

  lemma {:induction false} TimesOne(rows: seq<Row>, k: nat)
    requires k < |rows| && forall i | 0 <= i < |rows| && i != k :: rows[i].key.id != rows[k].key.id
    ensures Times(rows, rows[k].key.id) == 1
  {
    if k == 0 { TimesZero(rows[1..], rows[0].key.id); }
    else { TimesOne(rows[1..], k - 1); }
  }

  /** The owner's row with this key is there, whatever its other columns are. */
  ghost predicate Holds(table: set<Row>, owner: string, k: Key) {
    exists r :: r in table && r.owner == owner && r.key == k
  }

  /** Where a sorted list is cut decides whether a row of it is in the leading part. */
  lemma TimesInPrefix(q: seq<Row>, n: nat, r: Row)
    requires Sorted(q) && n <= |q| && forall i | 0 <= i < |q| && q[i].key.id == r.key.id :: q[i] == r
    ensures Times(q[..n], r.key.id) == if r in q && !(n > 0 && Before(q[n - 1].key, r.key)) && n > 0 then 1 else 0
  {
    if r in q[..n] {
      var j :| 0 <= j < n && q[..n][j] == r;
      assert j < n - 1 ==> Before(q[j].key, q[n - 1].key);
      forall i | 0 <= i < n && i != j ensures q[..n][i].key.id != r.key.id {
        assert if i < j then Before(q[i].key, q[j].key) else Before(q[j].key, q[i].key);
      }
      TimesOne(q[..n], j);
    } else {
      if r in q && n > 0 {
        assert forall i | 0 <= i < n :: q[i] in q[..n];
        var j :| 0 <= j < |q| && q[j] == r;
        assert Before(q[n - 1].key, q[j].key);
      }
      forall i | 0 <= i < n ensures q[..n][i].key.id != r.key.id {
        assert q[..n][i] == q[i] && q[i] in q[..n];
      }
      TimesZero(q[..n], r.key.id);
    }
  }

  lemma OnePageOf(s: set<Row>, q: seq<Row>, page: Page, limit: nat, r: Row)
    requires limit >= 1 && Lists(q, s) && IsPageOf(page, q, limit)
    requires forall x | x in s && x.key.id == r.key.id :: x == r
    ensures var beyond := page.hasMore && Before(page.nextCursor.value, r.key);
            Times(page.rows, r.key.id) == if r in s && !beyond then 1 else 0
  {
    forall i | 0 <= i < |q| ensures q[i].key.id == r.key.id ==> q[i] == r {
      assert q[i] in Elements(q);
    }
    assert r in q <==> r in Elements(q);
    assert q[..|q|] == q;
    LastIsLast(q, r);
    TimesInPrefix(q, if page.hasMore then limit else |q|, r);
  }

  /** On one page: the row is listed once if the page reaches it, and otherwise not at all. */
  lemma OnePage(table: set<Row>, owner: string, limit: nat, cursor: Option<Key>, k: Key)
    requires UniqueIds(table) && limit >= 1 && Holds(table, owner, k)
    ensures var page := ListOwned(table, owner, limit, cursor);
            var ahead := cursor.None? || Before(cursor.value, k);
            var beyond := page.hasMore && Before(page.nextCursor.value, k);
            && Times(page.rows, k.id) == (if ahead && !beyond then 1 else 0)
            && (page.hasMore && cursor.Some? ==> Before(cursor.value, page.nextCursor.value))
  {
    var q := PageFacts(table, owner, limit, cursor);
    var s := Selected(table, owner, cursor);
    var page := ListOwned(table, owner, limit, cursor);
    var r :| r in table && r.owner == owner && r.key == k;
    assert r in s <==> cursor.None? || Before(cursor.value, k);
    OnePageOf(s, q, page, limit, r);
    if page.hasMore {
      assert q[limit - 1] in Elements(q);
    }
  }

  lemma LastIsLast(q: seq<Row>, r: Row)
    requires Sorted(q)
    ensures r in q ==> !Before(q[|q| - 1].key, r.key)
  {
    if r in q {
      var j :| 0 <= j < |q| && q[j] == r;
      assert j < |q| - 1 ==> Before(q[j].key, q[|q| - 1].key);
    }
  }

  lemma {:induction false} ListedOnceFrom(tables: seq<set<Row>>, owner: string, limit: nat, cursor: Option<Key>,
      pages: seq<Page>, k: Key)
    requires limit >= 1 && forall i | 0 <= i < |tables| :: UniqueIds(tables[i]) && Holds(tables[i], owner, k)
    requires CompletedWalk(tables, owner, limit, cursor, pages)
    ensures TimesListed(pages, k.id) == if cursor.None? || Before(cursor.value, k) then 1 else 0
    decreases |pages|
  {
    OnePage(tables[0], owner, limit, cursor, k);
    if pages[0].hasMore {
      ListedOnceFrom(tables[1..], owner, limit, pages[0].nextCursor, pages[1..], k);
    } else {
      assert pages[1..] == [];
    }
  }

  /**
   * While other rows are inserted, bumped, pinned or deleted between the pages, a row whose key
   * stays put throughout a completed walk is listed exactly once.
   */
  lemma UntouchedRowListedOnce(tables: seq<set<Row>>, owner: string, limit: nat, pages: seq<Page>, k: Key)
    requires limit >= 1 && forall i | 0 <= i < |tables| :: UniqueIds(tables[i]) && Holds(tables[i], owner, k)
    requires CompletedWalk(tables, owner, limit, None, pages)
    ensures TimesListed(pages, k.id) == 1
  {
    ListedOnceFrom(tables, owner, limit, None, pages, k);
  }

  // ---------------------------------------------------------------- walking the task list

  /** Tasks have no pins. */
  ghost predicate Tasks(table: set<Row>) {
    UniqueIds(table) && forall r | r in table :: !r.key.pinned
  }

  ghost predicate TaskCursor(cursor: Option<Key>) {
    cursor.Some? ==> !cursor.value.pinned
  }

  ghost function TaskWalk(table: set<Row>, owner: string, limit: nat, cursor: Option<Key>): seq<Page>
    requires Tasks(table) && limit >= 1 && TaskCursor(cursor)
    decreases |Selected(table, owner, cursor)|
  {
    TasksAreOneTier(table, owner, limit, cursor);
    var page := ListOwnedTasks(table, owner, limit, cursor);
    if page.hasMore then
      NextSelection(table, owner, limit, cursor);
      [page] + TaskWalk(table, owner, limit, page.nextCursor)
    else [page]
  }

  lemma {:induction false} TaskWalkIsWalk(table: set<Row>, owner: string, limit: nat, cursor: Option<Key>)
    requires Tasks(table) && limit >= 1 && TaskCursor(cursor)
    ensures TaskWalk(table, owner, limit, cursor) == Walk(table, owner, limit, cursor)
    decreases |Selected(table, owner, cursor)|
  {
    TasksAreOneTier(table, owner, limit, cursor);
    var page := ListOwnedTasks(table, owner, limit, cursor);
    hide ListOwned, ListOwnedTasks;
    if page.hasMore {
      NextSelection(table, owner, limit, cursor);
      TaskWalkIsWalk(table, owner, limit, page.nextCursor);
    }
  }

  /** Newest first, and of two tasks updated together the one with the greater id. */
  ghost predicate NewestFirst(q: seq<Row>) {
    forall i, j | 0 <= i < j < |q| ::
      q[j].key.updatedAt < q[i].key.updatedAt || (q[j].key.updatedAt == q[i].key.updatedAt && q[j].key.id < q[i].key.id)
  }

  /** Following the task cursors returns the owner's tasks, newest first, in the least number of pages. */
  lemma TaskWalkIsSortedList(table: set<Row>, owner: string, limit: nat)
    requires Tasks(table) && limit >= 1
    ensures var all := AllRows(TaskWalk(table, owner, limit, None));
            && NewestFirst(all)
            && Elements(all) == (set r | r in table && r.owner == owner)
            && |all| == |set r | r in table && r.owner == owner|
            && |TaskWalk(table, owner, limit, None)| == PagesNeeded(|all|, limit)
  {
    TaskWalkIsWalk(table, owner, limit, None);
    WalkIsSortedList(table, owner, limit);
    var all := AllRows(TaskWalk(table, owner, limit, None));
    hide Walk, TaskWalk, AllRows, PagesNeeded, ListOwnedTasks;
    forall r | r in Elements(all) ensures !r.key.pinned { assert r in table; }
    forall i | 0 <= i < |all| ensures !all[i].key.pinned { assert all[i] in Elements(all); }
  }

  /** A walk of the task list while it changes. */
  ghost predicate CompletedTaskWalk(tables: seq<set<Row>>, owner: string, limit: nat, cursor: Option<Key>,
      pages: seq<Page>)
    requires limit >= 1 && forall i | 0 <= i < |tables| :: Tasks(tables[i])
  {
    && |tables| == |pages| && |pages| >= 1
    && Tasks(tables[0]) && pages[0] == ListOwnedTasks(tables[0], owner, limit, cursor)
    && if pages[0].hasMore then CompletedTaskWalk(tables[1..], owner, limit, pages[0].nextCursor, pages[1..])
       else |pages| == 1
  }

  lemma {:induction false} TaskWalkCompletes(tables: seq<set<Row>>, owner: string, limit: nat,
      cursor: Option<Key>, pages: seq<Page>)
    requires limit >= 1 && forall i | 0 <= i < |tables| :: Tasks(tables[i])
    requires TaskCursor(cursor) && CompletedTaskWalk(tables, owner, limit, cursor, pages)
    ensures CompletedWalk(tables, owner, limit, cursor, pages)
    decreases |pages|
  {
    TasksAreOneTier(tables[0], owner, limit, cursor);
    hide ListOwned, ListOwnedTasks;
    if pages[0].hasMore { TaskWalkCompletes(tables[1..], owner, limit, pages[0].nextCursor, pages[1..]); }
  }

  /** While other tasks come, change or go between the pages, one that is not updated is listed exactly once. */
  lemma UntouchedTaskListedOnce(tables: seq<set<Row>>, owner: string, limit: nat, pages: seq<Page>, k: Key)
    requires limit >= 1 && forall i | 0 <= i < |tables| :: Tasks(tables[i]) && Holds(tables[i], owner, k)
    requires CompletedTaskWalk(tables, owner, limit, None, pages)
    ensures TimesListed(pages, k.id) == 1
  {
    TaskWalkCompletes(tables, owner, limit, None, pages);
    UntouchedRowListedOnce(tables, owner, limit, pages, k);
  }
}
