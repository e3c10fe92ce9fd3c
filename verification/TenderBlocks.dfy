/** What the reader's blocks are, told by the nodes of the body alone. */
module TenderBlocks {
  import opened Outcomes
  import opened Text
  import opened TenderDocx

  // ---------------------------------------------------------------- joining

  /** A join is its parts in order with one separator between each two. */
  lemma {:induction false} JoinParts(separator: string, a: seq<string>, b: seq<string>)
    requires a != [] && b != []
    ensures Join(separator, [a[0]]) == a[0]
    ensures Join(separator, a + b) == Join(separator, a) + separator + Join(separator, b)
    decreases |a|
  {
    var first, rest := a[0], a[1..];
    assert (a + b)[0] == first && (a + b)[1..] == rest + b;
    if rest == [] {
      assert rest + b == b;
      assert a == [first];
    } else {
      JoinParts(separator, rest, b);
      var x, y := Join(separator, rest), Join(separator, b);
      hide Join;
      assert first + separator + (x + separator + y) == (first + separator + x) + separator + y;
    }
  }

  lemma {:induction false} JoinHolds(separator: string, parts: seq<string>, i: nat)
    returns (before: string, after: string)
    requires i < |parts|
    ensures Join(separator, parts) == before + parts[i] + after
  {
    if |parts| == 1 {
      before, after := "", "";
    } else if i == 0 {
      before, after := "", separator + Join(separator, parts[1..]);
    } else {
      var x, y := JoinHolds(separator, parts[1..], i - 1);
      before, after := parts[0] + separator + x, y;
      assert parts[1..][i - 1] == parts[i];
    }
  }

  lemma NotBlankInside(before: string, inside: string, after: string)
    requires !Blank(inside)
    ensures !Blank(before + inside + after)
  {
    var i :| 0 <= i < |inside| && !IsSpace(inside[i]);
    assert (before + inside + after)[|before| + i] == inside[i];
  }

  // ---------------------------------------------------------------- the text of a table

  /** Some cell of the row has text. */
  ghost predicate HasText(row: seq<string>) {
    exists i :: 0 <= i < |row| && row[i] != ""
  }

  /** Positions in order, exactly those of the rows that have a cell with text. */
  ghost predicate TextRows(rows: seq<seq<string>>, picked: seq<nat>) {
    && (forall i, j | 0 <= i < j < |picked| :: picked[i] < picked[j])
    && (forall p: nat :: p in picked <==> p < |rows| && HasText(rows[p]))
  }

  /** The lines of the picked rows. */
  ghost predicate LinesOf(lines: seq<string>, rows: seq<seq<string>>, picked: seq<nat>) {
    && |lines| == |picked|
    && forall i | 0 <= i < |picked| :: picked[i] < |rows| && lines[i] == Join(" | ", rows[picked[i]])
  }

  /** These rows, in order, and their lines. */
  ghost predicate Lines(lines: seq<string>, rows: seq<seq<string>>, picked: seq<nat>) {
    TextRows(rows, picked) && LinesOf(lines, rows, picked)
  }

  lemma {:induction false} RowTextsPicked(rows: seq<seq<string>>) returns (picked: seq<nat>)
    ensures Lines(RowTexts(rows), rows, picked)
  {
    if rows == [] {
      picked := [];
    } else {
      var rest := RowTextsPicked(rows[1..]);
      var own := if HasText(rows[0]) then [Join(" | ", rows[0])] else [];
      var later := RowTexts(rows[1..]);
      assert RowTexts(rows) == own + later;
      hide RowTexts, Lines, HasText, Join;
      picked := LinesMoved(rows, rest, later, own);
    }
  }

  lemma LinesMoved(rows: seq<seq<string>>, rest: seq<nat>, lines: seq<string>, own: seq<string>)
    returns (picked: seq<nat>)
    requires rows != [] && Lines(lines, rows[1..], rest)
    requires own == if HasText(rows[0]) then [Join(" | ", rows[0])] else []
    ensures Lines(own + lines, rows, picked)
  {
    hide HasText, Join, TextRows, LinesOf;
    var moved := OneFurther(rest);
    TextRowsMoved(rows, rest, moved);
    LinesOfMoved(rows, rest, lines, moved);
    if HasText(rows[0]) {
      picked := [0] + moved;
    } else {
      picked := moved;
      assert own + lines == lines;
    }
  }

  lemma OneFurther(rest: seq<nat>) returns (moved: seq<nat>)
    ensures |moved| == |rest| && forall i | 0 <= i < |rest| :: moved[i] == rest[i] + 1
  {
    moved := seq(|rest|, i requires 0 <= i < |rest| => rest[i] + 1);
  }

  lemma TextRowsMoved(rows: seq<seq<string>>, rest: seq<nat>, moved: seq<nat>)
    requires rows != [] && TextRows(rows[1..], rest)
    requires |moved| == |rest| && forall i | 0 <= i < |rest| :: moved[i] == rest[i] + 1
    ensures TextRows(rows, if HasText(rows[0]) then [0] + moved else moved)
  {
    hide HasText;
    var picked := if HasText(rows[0]) then [0] + moved else moved;
    forall p: nat ensures p in picked <==> p < |rows| && HasText(rows[p]) {
      InMoved(rest, moved, p);
      assert p in picked <==> p in moved || (p == 0 && HasText(rows[0]));
      if p > 0 { assert p - 1 in rest <==> p - 1 < |rows[1..]| && HasText(rows[1..][p - 1]); }
    }
    forall i, j | 0 <= i < j < |picked| ensures picked[i] < picked[j] {}
  }

  lemma LinesOfMoved(rows: seq<seq<string>>, rest: seq<nat>, lines: seq<string>, moved: seq<nat>)
    requires rows != [] && LinesOf(lines, rows[1..], rest)
    requires |moved| == |rest| && forall i | 0 <= i < |rest| :: moved[i] == rest[i] + 1
    ensures LinesOf(lines, rows, moved) && LinesOf([Join(" | ", rows[0])] + lines, rows, [0] + moved)
  {
    hide Join;
    forall i | 0 <= i < |rest| ensures moved[i] < |rows| && lines[i] == Join(" | ", rows[moved[i]]) {
      assert rows[1..][rest[i]] == rows[moved[i]];
    }
  }

  lemma RowHasText(row: seq<string>)
    requires HasText(StripAll(row))
    ensures !Blank(Join(" | ", StripAll(row)))
  {
    var cells := StripAll(row);
    var i :| 0 <= i < |cells| && cells[i] != "";
    StripIdempotent(row[i]);
    StripEmpty(cells[i]);
    var before, after := JoinHolds(" | ", cells, i);
    NotBlankInside(before, cells[i], after);
  }

  /** The text of a table is empty exactly when no cell has text. */
  lemma TableText(rows: seq<seq<string>>) returns (picked: seq<nat>)
    ensures Lines(RowTexts(StripRows(rows)), StripRows(rows), picked)
    ensures Strip(Join(" | ", RowTexts(StripRows(rows)))) != "" <==>
      exists i, j :: 0 <= i < |rows| && 0 <= j < |rows[i]| && Strip(rows[i][j]) != ""
  {
    var cells := StripRows(rows);
    picked := RowTextsPicked(cells);
    var lines := RowTexts(cells);
    StripEmpty(Join(" | ", lines));
    if i, j :| 0 <= i < |rows| && 0 <= j < |rows[i]| && Strip(rows[i][j]) != "" {
      assert cells[i][j] != "" && HasText(cells[i]);
      assert i in picked;
      var k :| 0 <= k < |picked| && picked[k] == i;
      RowHasText(rows[i]);
      var before, after := JoinHolds(" | ", lines, k);
      NotBlankInside(before, lines[k], after);
    } else {
      assert forall p: nat | p < |cells| :: !HasText(cells[p]);
      assert forall p: nat :: p !in picked;
      assert |picked| == 0;
    }
  }

  // ---------------------------------------------------------------- the blocks

  function ParagraphsIn(nodes: seq<Node>): nat {
    if nodes == [] then 0 else (if nodes[0].Paragraph? then 1 else 0) + ParagraphsIn(nodes[1..])
  }

  /** The block's number, counted over the nodes up to its own. */
  ghost predicate Numbered(b: Block, body: seq<Node>, before: nat, paragraphs: nat) {
    && before < b.order <= before + |body|
    && var n := b.order - before;
       b.paragraphNumber == if body[n - 1].Paragraph? then Some(paragraphs + ParagraphsIn(body[..n])) else None
  }

  ghost predicate InOrder(blocks: seq<Block>, body: seq<Node>, before: nat, paragraphs: nat) {
    && (forall i, j | 0 <= i < j < |blocks| :: blocks[i].order < blocks[j].order)
    && (forall i | 0 <= i < |blocks| :: Numbered(blocks[i], body, before, paragraphs))
  }

  lemma {:induction false} NumberedAndOrdered(body: seq<Node>, before: nat, paragraphs: nat)
    ensures InOrder(BlocksFrom(body, before, paragraphs), body, before, paragraphs)
    decreases |body|
  {
    hide ContentOf, BlockId, Numbered;
    if body != [] {
      var n := Paragraphs(body[0], paragraphs);
      var own, rest := BlockOf(body[0], before + 1, n), BlocksFrom(body[1..], before + 1, n);
      assert BlocksFrom(body, before, paragraphs) == own + rest;
      NumberedAndOrdered(body[1..], before + 1, n);
      hide BlocksFrom, InOrder;
      NumberedFirst(body, before, paragraphs, own, rest);
    }
  }

  lemma NumberedFirst(body: seq<Node>, before: nat, paragraphs: nat, own: seq<Block>, rest: seq<Block>)
    requires body != [] && own == BlockOf(body[0], before + 1, Paragraphs(body[0], paragraphs))
    requires InOrder(rest, body[1..], before + 1, Paragraphs(body[0], paragraphs))
    ensures InOrder(own + rest, body, before, paragraphs)
  {
    hide ContentOf, BlockId;
    var n := Paragraphs(body[0], paragraphs);
    forall i | 0 <= i < |own| ensures Numbered(own[i], body, before, paragraphs) && own[i].order == before + 1 {
      assert own[i] == own[0];
      assert body[..1] == [body[0]] && body[..1][1..] == [];
      assert ParagraphsIn(body[..1]) == (if body[0].Paragraph? then 1 else 0) + ParagraphsIn([]);
    }
    forall i | 0 <= i < |rest|
      ensures Numbered(rest[i], body, before, paragraphs) && rest[i].order > before + 1
    {
      var m := rest[i].order - before;
      assert Numbered(rest[i], body[1..], before + 1, n);
      assert body[..m][1..] == body[1..][..m - 1] && body[1..][m - 2] == body[m - 1];
    }
    assert |own| <= 1;
    hide BlockOf, Numbered;
  }

  /** Some cell of the table has text. */
  ghost predicate SomeCell(rows: seq<seq<string>>) {
    exists i, j :: 0 <= i < |rows| && 0 <= j < |rows[i]| && Strip(rows[i][j]) != ""
  }

  /** The cells, stripped, row by row. */
  ghost predicate StrippedCells(cells: seq<seq<string>>, rows: seq<seq<string>>) {
    && |cells| == |rows|
    && forall i | 0 <= i < |rows| ::
         |cells[i]| == |rows[i]| && forall j | 0 <= j < |rows[i]| :: cells[i][j] == Strip(rows[i][j])
  }

  /** The rows that have a cell with text, each joined, and then all joined, by bars. */
  ghost predicate JoinedRows(text: string, cells: seq<seq<string>>) {
    exists picked: seq<nat>, lines: seq<string> ::
      Lines(lines, cells, picked) && text == Strip(Join(" | ", lines))
  }

  /** A node has content exactly if it is a paragraph or a table with text, and then this. */
  lemma ContentOfNode(n: Node)
    ensures ContentOf(n).Some? <==>
      (n.Paragraph? && Strip(n.text) != "") || (n.Table? && SomeCell(n.rows))
    ensures n.Paragraph? && ContentOf(n).Some? ==> ContentOf(n).value == ParagraphContent(Strip(n.text))
    ensures n.Table? && ContentOf(n).Some? ==>
      && ContentOf(n).value.TableContent?
      && StrippedCells(ContentOf(n).value.rows, n.rows)
      && JoinedRows(ContentOf(n).value.text, ContentOf(n).value.rows)
  {
    if n.Table? {
      var picked := TableText(n.rows);
      assert Lines(RowTexts(StripRows(n.rows)), StripRows(n.rows), picked);
      hide Lines, RowTexts, Join, Strip;
      assert StrippedCells(StripRows(n.rows), n.rows);
    }
  }

  /**
   * The reader's blocks, in the order of the body: a paragraph has one exactly if its text is not blank,
   * a table exactly if some cell is not blank, and no other node has one.  It carries the node's place,
   * the number of the paragraph, and the stripped text or cells.
   */
  lemma BlocksOfNodes(body: seq<Node>, k: nat)
    requires k < |body|
    ensures var blocks := BlocksFrom(body, 0, 0);
      && (forall i, j | 0 <= i < j < |blocks| :: blocks[i].order < blocks[j].order)
      && ((exists b :: b in blocks && b.order == k + 1) <==>
            (body[k].Paragraph? && Strip(body[k].text) != "") || (body[k].Table? && SomeCell(body[k].rows)))
      && forall b | b in blocks && b.order == k + 1 ::
           && b.id == "evidence-" + Decimal(k + 1)
           && (body[k].Paragraph? ==>
                 b.content == ParagraphContent(Strip(body[k].text))
                 && b.paragraphNumber == Some(ParagraphsIn(body[..k + 1])))
           && (body[k].Table? ==>
                 && b.paragraphNumber == None && b.content.TableContent?
                 && StrippedCells(b.content.rows, body[k].rows) && JoinedRows(b.content.text, b.content.rows))
  {
    var blocks := BlocksFrom(body, 0, 0);
    hide ContentOf, BlocksFrom, SomeCell, StrippedCells, JoinedRows, Strip, Decimal, ParagraphsIn, InOrder;
    NumberedAndOrdered(body, 0, 0);
    OrdersAscend(blocks, body);
    BlockThere(body, k);
    ContentOfNode(body[k]);
    forall b | b in blocks && b.order == k + 1
      ensures b.id == "evidence-" + Decimal(k + 1) && ContentOf(body[k]) == Some(b.content)
      ensures b.paragraphNumber == if body[k].Paragraph? then Some(ParagraphsIn(body[..k + 1])) else None
    {
      BlockAtNode(body, k, b);
    }
  }

  lemma BlockAtNode(body: seq<Node>, k: nat, b: Block)
    requires k < |body| && b in BlocksFrom(body, 0, 0) && b.order == k + 1
    ensures b.id == "evidence-" + Decimal(k + 1) && ContentOf(body[k]) == Some(b.content)
    ensures b.paragraphNumber == if body[k].Paragraph? then Some(ParagraphsIn(body[..k + 1])) else None
  {
    hide ContentOf, BlocksFrom, Decimal, InOrder;
    BlockPlaces(body, 0, 0);
    NumberedAndOrdered(body, 0, 0);
    NumberIs(BlocksFrom(body, 0, 0), b, body, k);
  }

  /** There is a block of this order exactly if the node has content. */
  lemma BlockThere(body: seq<Node>, k: nat)
    requires k < |body|
    ensures (exists b :: b in BlocksFrom(body, 0, 0) && b.order == k + 1) <==> ContentOf(body[k]).Some?
  {
    var blocks := BlocksFrom(body, 0, 0);
    hide ContentOf, BlocksFrom, BlockId;
    BlockPlaces(body, 0, 0);
    if ContentOf(body[k]).Some? {
      BlockAtIsListed(body, 0, 0, k + 1);
      var b :| b in blocks && b.id == BlockId(k + 1);
      BlockIdInjective(b.order, k + 1);
    }
  }

  lemma OrdersAscend(blocks: seq<Block>, body: seq<Node>)
    requires InOrder(blocks, body, 0, 0)
    ensures forall i, j | 0 <= i < j < |blocks| :: blocks[i].order < blocks[j].order
  {
  }

  lemma NumberIs(blocks: seq<Block>, b: Block, body: seq<Node>, k: nat)
    requires InOrder(blocks, body, 0, 0) && b in blocks && b.order == k + 1 && k < |body|
    ensures b.paragraphNumber == if body[k].Paragraph? then Some(ParagraphsIn(body[..k + 1])) else None
  {
    var i :| 0 <= i < |blocks| && blocks[i] == b;
    assert Numbered(blocks[i], body, 0, 0);
  }

  // ---------------------------------------------------------------- the skeleton

  /** Some node with text has this id. */
  ghost predicate Known(body: seq<Node>, id: string) {
    exists i: nat :: IsBlockAt(body, id, i)
  }

  /** Why a rendering is refused: a boundary is not given, is no block of the body, or the last is before the first. */
  lemma RenderErrors(body: seq<Node>, plan: OutputPlan)
    ensures var r, given := Rendered(body, plan), plan.startBlockId.Some? && plan.endBlockId.Some?;
      && (r == Err(BoundaryMissing) <==> !given)
      && (r == Err(BoundaryUnknown) <==>
            given && !(Known(body, plan.startBlockId.value) && Known(body, plan.endBlockId.value)))
      && (r == Err(BoundaryReversed) <==>
            given && exists i: nat, j: nat ::
              j < i && IsBlockAt(body, plan.startBlockId.value, i) && IsBlockAt(body, plan.endBlockId.value, j))
  {
    hide BlocksFrom, Find, IsBlockAt, Skeleton, MinOrder, MaxOrder, InRange, BoundariesInOrder;
    if plan.startBlockId.Some? && plan.endBlockId.Some? {
      FindBoundary(body, plan.startBlockId.value);
      FindBoundary(body, plan.endBlockId.value);
      KnownIsFound(body, plan.startBlockId.value);
      KnownIsFound(body, plan.endBlockId.value);
    }
    hide Known;
  }

  lemma KnownIsFound(body: seq<Node>, id: string)
    ensures Known(body, id) <==> Find(BlocksFrom(body, 0, 0), id).Some?
  {
    FindBoundary(body, id);
    hide IsBlockAt, Find, BlocksFrom;
  }

  /** Positions in order, exactly those of the titles that are not blank and not among the copied texts. */
  ghost predicate TitlesLeft(titles: seq<string>, copied: set<string>, picked: seq<nat>) {
    && (forall i, j | 0 <= i < j < |picked| :: picked[i] < picked[j])
    && (forall p: nat :: p in picked <==> p < |titles| && Strip(titles[p]) != "" && Strip(titles[p]) !in copied)
  }

  /** The titles at these positions, stripped. */
  ghost predicate StrippedTitles(missing: seq<string>, titles: seq<string>, picked: seq<nat>) {
    && |missing| == |picked|
    && forall i | 0 <= i < |picked| :: picked[i] < |titles| && missing[i] == Strip(titles[picked[i]])
  }

  lemma {:induction false} MissingPositions(titles: seq<string>, copied: set<string>) returns (picked: seq<nat>)
    ensures TitlesLeft(titles, copied, picked) && StrippedTitles(MissingTitles(titles, copied), titles, picked)
  {
    if titles == [] {
      picked := [];
    } else {
      var t, later := Strip(titles[0]), MissingTitles(titles[1..], copied);
      var rest := MissingPositions(titles[1..], copied);
      var moved := OneFurther(rest);
      assert MissingTitles(titles, copied) == (if t == "" || t in copied then [] else [t]) + later;
      hide MissingTitles, TitlesLeft, StrippedTitles;
      TitlesLeftMoved(titles, copied, rest, moved);
      StrippedMoved(titles, later, rest, moved);
      if t == "" || t in copied {
        picked := moved;
        assert [] + later == later;
      } else {
        picked := [0] + moved;
      }
    }
  }

  lemma TitlesLeftMoved(titles: seq<string>, copied: set<string>, rest: seq<nat>, moved: seq<nat>)
    requires titles != [] && TitlesLeft(titles[1..], copied, rest)
    requires |moved| == |rest| && forall i | 0 <= i < |rest| :: moved[i] == rest[i] + 1
    ensures var t := Strip(titles[0]); TitlesLeft(titles, copied, if t == "" || t in copied then moved else [0] + moved)
  {
    hide Strip;
    var t := Strip(titles[0]);
    var picked := if t == "" || t in copied then moved else [0] + moved;
    forall p: nat ensures p in picked <==> p < |titles| && Strip(titles[p]) != "" && Strip(titles[p]) !in copied {
      InMoved(rest, moved, p);
      assert p in picked <==> p in moved || (p == 0 && t != "" && t !in copied);
      if p > 0 && p < |titles| { assert titles[1..][p - 1] == titles[p]; }
    }
    forall i, j | 0 <= i < j < |picked| ensures picked[i] < picked[j] {}
  }

  lemma StrippedMoved(titles: seq<string>, missing: seq<string>, rest: seq<nat>, moved: seq<nat>)
    requires titles != [] && StrippedTitles(missing, titles[1..], rest)
    requires |moved| == |rest| && forall i | 0 <= i < |rest| :: moved[i] == rest[i] + 1
    ensures StrippedTitles(missing, titles, moved) && StrippedTitles([Strip(titles[0])] + missing, titles, [0] + moved)
  {
    hide Strip;
    forall i | 0 <= i < |rest| ensures moved[i] < |titles| && missing[i] == Strip(titles[moved[i]]) {
      assert titles[1..][rest[i]] == titles[moved[i]];
    }
  }

  lemma {:induction false} TitlePairs(titles: seq<string>)
    ensures |TitleNodes(titles)| == 2 * |titles|
    ensures forall i | 0 <= i < |titles| ::
      && TitleNodes(titles)[2 * i] == Paragraph(titles[i], "bold")
      && TitleNodes(titles)[2 * i + 1] == Paragraph(PLACEHOLDER, "plain")
  {
    if titles != [] {
      TitlePairs(titles[1..]);
      var later := TitleNodes(titles[1..]);
      var first := [BoldParagraph(titles[0]), TextParagraph(PLACEHOLDER)];
      assert TitleNodes(titles) == first + later;
      hide TitleNodes;
      forall i | 1 <= i < |titles|
        ensures TitleNodes(titles)[2 * i] == later[2 * (i - 1)]
        ensures TitleNodes(titles)[2 * i + 1] == later[2 * (i - 1) + 1]
      {
        assert (first + later)[2 * i] == later[2 * i - 2] && (first + later)[2 * i + 1] == later[2 * i - 1];
      }
    }
  }

  /** After the three heading nodes, the nodes at these positions between the boundaries. */
  ghost predicate CopiedInPlace(skeleton: seq<Node>, body: seq<Node>, low: nat, high: nat, kept: seq<nat>)
    requires 1 <= low <= high <= |body|
  {
    && 3 + |kept| <= |skeleton|
    && forall i | 0 <= i < |kept| :: kept[i] <= high - low && skeleton[3 + i] == body[low - 1 + kept[i]]
  }

  /** From n on, each of these titles in bold and a placeholder after it. */
  ghost predicate PairsFollow(skeleton: seq<Node>, n: nat, titles: seq<string>, picked: seq<nat>) {
    && n + 2 * |picked| <= |skeleton|
    && forall i | 0 <= i < |picked| ::
         && picked[i] < |titles|
         && skeleton[n + 2 * i] == Paragraph(Strip(titles[picked[i]]), "bold")
         && skeleton[n + 2 * i + 1] == Paragraph(PLACEHOLDER, "plain")
  }

  /**
   * A rendering, node by node: the name, the instruction and a page break; the nodes between the
   * boundaries that are no section properties, in order; for each title that is not blank and not a text
   * of the range, in order and as often as asked for, the title in bold and a placeholder; and the
   * body's section properties, if it has any.
   */
  lemma SkeletonExactly(body: seq<Node>, plan: OutputPlan)
    returns (low: nat, high: nat, kept: seq<nat>, picked: seq<nat>)
    requires Rendered(body, plan).Ok?
    ensures 1 <= low <= high <= |body|
    ensures plan.startBlockId == Some("evidence-" + Decimal(low))
    ensures plan.endBlockId == Some("evidence-" + Decimal(high))
    ensures KeptPositions(body[low - 1..high], kept)
    ensures TitlesLeft(plan.sectionTitles, TextsBetween(body, low, high), picked)
    ensures var skeleton, n := Rendered(body, plan).value, 3 + |kept|;
      && |skeleton| == n + 2 * |picked| + |FirstSectionProperties(body)|
      && skeleton[0] == Paragraph(plan.name + TITLE_SUFFIX, "plain")
      && skeleton[1] == Paragraph(INSTRUCTION, "plain")
      && skeleton[2] == Paragraph("", "page break")
      && CopiedInPlace(skeleton, body, low, high, kept)
      && PairsFollow(skeleton, n, plan.sectionTitles, picked)
  {
    var titles: seq<string>;
    hide Rendered, BlocksFrom, KeptPositions, TitleNodes, FirstSectionProperties, WithoutSectionProperties;
    hide TextsBetween, MissingTitles, TitlesLeft, ContentOf, Strip, Decimal, CopiedInPlace, PairsFollow;
    hide Header, PickedFrom, StrippedTitles, IsBlockAt;
    low, high, titles := RenderedParts(body, plan);
    var copied := WithoutSectionProperties(body[low - 1..high]);
    kept := CopyPositions(body[low - 1..high]);
    picked := MissingPositions(plan.sectionTitles, TextsBetween(body, low, high));
    BoundaryIds(body, plan, low, high);
    HeaderNodes(plan.name);
    CopiedNodes(Header(plan.name), body, low, high, copied, kept, TitleNodes(titles) + FirstSectionProperties(body));
    TitleTexts(Header(plan.name) + copied, titles, plan.sectionTitles, picked, FirstSectionProperties(body));
    SplitInFour(Header(plan.name), copied, TitleNodes(titles), FirstSectionProperties(body));
  }

  lemma HeaderNodes(name: string)
    ensures Header(name) ==
      [Paragraph(name + TITLE_SUFFIX, "plain"), Paragraph(INSTRUCTION, "plain"), Paragraph("", "page break")]
  {
  }

  lemma BoundaryIds(body: seq<Node>, plan: OutputPlan, low: nat, high: nat)
    requires plan.startBlockId.Some? && plan.endBlockId.Some?
    requires IsBlockAt(body, plan.startBlockId.value, low) && IsBlockAt(body, plan.endBlockId.value, high)
    ensures plan.startBlockId == Some("evidence-" + Decimal(low))
    ensures plan.endBlockId == Some("evidence-" + Decimal(high))
  {
    hide ContentOf, Decimal;
  }

  lemma CopiedNodes(header: seq<Node>, body: seq<Node>, low: nat, high: nat, copied: seq<Node>, kept: seq<nat>,
      rest: seq<Node>)
    requires |header| == 3 && 1 <= low <= high <= |body| && PickedFrom(copied, body[low - 1..high], kept)
    ensures |copied| == |kept| && CopiedInPlace(header + copied + rest, body, low, high, kept)
  {
    var skeleton := header + copied + rest;
    forall i | 0 <= i < |kept| ensures kept[i] <= high - low && skeleton[3 + i] == body[low - 1 + kept[i]] {
      assert skeleton[3 + i] == copied[i];
    }
  }

  lemma TitleTexts(before: seq<Node>, missing: seq<string>, titles: seq<string>, picked: seq<nat>, rest: seq<Node>)
    requires StrippedTitles(missing, titles, picked)
    ensures |TitleNodes(missing)| == 2 * |picked|
    ensures PairsFollow(before + TitleNodes(missing) + rest, |before|, titles, picked)
  {
    hide Strip, TitleNodes;
    TitlePairs(missing);
    var pairs := TitleNodes(missing);
    var skeleton := before + pairs + rest;
    forall i | 0 <= i < |picked|
      ensures skeleton[|before| + 2 * i] == pairs[2 * i] && skeleton[|before| + 2 * i + 1] == pairs[2 * i + 1]
    {
    }
  }

  lemma SplitInFour(a: seq<Node>, b: seq<Node>, c: seq<Node>, d: seq<Node>)
    ensures a + b + c + d == a + b + (c + d)
    ensures |a + b + c + d| == |a| + |b| + |c| + |d|
    ensures forall i | 0 <= i < |a| :: (a + b + c + d)[i] == a[i]
  {
  }
}
