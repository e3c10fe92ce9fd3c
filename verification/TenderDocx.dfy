/**
 * Reading a DOCX body into blocks, and rendering a range of it as a fillable skeleton.  A body is
 * the sequence of its child nodes; `formatting` stands for everything in a node but its text.
 */
module TenderDocx {
  import opened Outcomes
  import opened Text

  datatype Node =
    | Paragraph(text: string, formatting: string)
    | Table(rows: seq<seq<string>>, formatting: string)
    | SectionProperties(formatting: string)
    | OtherNode(formatting: string)

  /** What a reader sees of a node: its kind, its text, and the cells of a table. */
  datatype Content = ParagraphContent(text: string) | TableContent(text: string, rows: seq<seq<string>>)

  datatype Block = Block(id: string, content: Content, order: nat, paragraphNumber: Option<nat>)

  datatype OutputPlan = OutputPlan(
    name: string, sectionTitles: seq<string>,
    startBlockId: Option<string>, endBlockId: Option<string>)

  datatype RenderError = BoundaryMissing | BoundaryUnknown | BoundaryReversed

  // ---------------------------------------------------------------- reading

  function Join(separator: string, parts: seq<string>): string {
    if parts == [] then []
    else if |parts| == 1 then parts[0]
    else parts[0] + separator + Join(separator, parts[1..])
  }

  function StripAll(row: seq<string>): seq<string> {
    seq(|row|, i requires 0 <= i < |row| => Strip(row[i]))
  }

  function StripRows(rows: seq<seq<string>>): seq<seq<string>> {
    seq(|rows|, i requires 0 <= i < |rows| => StripAll(rows[i]))
  }

  /** The texts of the rows that have a cell with text. */
  function RowTexts(rows: seq<seq<string>>): seq<string> {
    if rows == [] then []
    else
      (if exists i | 0 <= i < |rows[0]| :: rows[0][i] != [] then [Join(" | ", rows[0])] else [])
      + RowTexts(rows[1..])
  }

  /** The content of a node, if it has any text. */
  function ContentOf(n: Node): Option<Content> {
    match n
    case Paragraph(text, _) =>
      if Strip(text) == [] then None else Some(ParagraphContent(Strip(text)))
    case Table(rows, _) =>
      var cells := StripRows(rows);
      var text := Strip(Join(" | ", RowTexts(cells)));
      if text == [] then None else Some(TableContent(text, cells))
    case _ => None
  }

  function BlockId(order: nat): string { "evidence-" + Decimal(order) }

  lemma BlockIdInjective(i: nat, j: nat)
    requires BlockId(i) == BlockId(j)
    ensures i == j
  {
    assert BlockId(i)[9..] == Decimal(i) && BlockId(j)[9..] == Decimal(j);
    DecimalInjective(i, j);
  }

  /** The block of a node, if it has one. */
  function BlockOf(n: Node, order: nat, paragraphs: nat): seq<Block> {
    var c := ContentOf(n);
    if c.None? then []
    else [Block(BlockId(order), c.value, order, if n.Paragraph? then Some(paragraphs) else None)]
  }

  function Paragraphs(n: Node, before: nat): nat {
    if n.Paragraph? then before + 1 else before
  }

  /** The blocks of the nodes that follow `before` nodes, `paragraphs` of which are paragraphs. */
  function BlocksFrom(body: seq<Node>, before: nat, paragraphs: nat): seq<Block> {
    if body == [] then []
    else
      var n := Paragraphs(body[0], paragraphs);
      BlockOf(body[0], before + 1, n) + BlocksFrom(body[1..], before + 1, n)
  }

  method IterDocumentBlocks(body: seq<Node>) returns (blocks: seq<Block>)
    ensures blocks == BlocksFrom(body, 0, 0)
  {
    hide BlockOf, ContentOf;
    blocks := [];
    var paragraphNumber: nat := 0;
    for i := 0 to |body|
      invariant blocks + BlocksFrom(body[i..], i, paragraphNumber) == BlocksFrom(body, 0, 0)
    {
      var child := body[i];
      assert body[i..][0] == child && body[i..][1..] == body[i + 1..];
      paragraphNumber := Paragraphs(child, paragraphNumber);
      blocks := blocks + BlockOf(child, i + 1, paragraphNumber);
    }
  }

  /** The contents of a body, in order: what reading it back amounts to. */
  function Contents(body: seq<Node>): seq<Content> {
    if body == [] then []
    else Seen(body[0]) + Contents(body[1..])
  }

  function ContentsOfBlocks(blocks: seq<Block>): seq<Content> {
    seq(|blocks|, i requires 0 <= i < |blocks| => blocks[i].content)
  }

  lemma {:induction false} ReadingIsContents(body: seq<Node>, before: nat, paragraphs: nat)
    ensures ContentsOfBlocks(BlocksFrom(body, before, paragraphs)) == Contents(body)
    decreases |body|
  {
    hide ContentOf;
    if body != [] {
      var n := Paragraphs(body[0], paragraphs);
      var rest := BlocksFrom(body[1..], before + 1, n);
      ReadingIsContents(body[1..], before + 1, n);
      if ContentOf(body[0]).Some? {
        assert BlocksFrom(body, before, paragraphs)[1..] == rest;
      } else {
        assert BlocksFrom(body, before, paragraphs) == rest;
      }
    }
  }

  function Seen(n: Node): seq<Content> {
    if ContentOf(n).None? then [] else [ContentOf(n).value]
  }

  lemma ContentsCons(n: Node, rest: seq<Node>)
    ensures Contents([n] + rest) == Seen(n) + Contents(rest)
  {
    hide ContentOf;
    assert ([n] + rest)[1..] == rest;
  }

  lemma Associative(a: seq<Content>, b: seq<Content>, c: seq<Content>)
    ensures (a + b) + c == a + (b + c)
  {
  }

  lemma {:induction false} ContentsAppend(a: seq<Node>, b: seq<Node>)
    ensures Contents(a + b) == Contents(a) + Contents(b)
    decreases |a|
  {
    hide Contents, Seen;
    if a == [] {
      EmptyContents();
      assert a + b == b && [] + Contents(b) == Contents(b);
    } else {
      var first, rest := a[0], a[1..];
      ContentsAppend(rest, b);
      ContentsCons(first, rest);
      ContentsCons(first, rest + b);
      assert a == [first] + rest && a + b == [first] + (rest + b);
      Associative(Seen(first), Contents(rest), Contents(b));
    }
  }

  lemma EmptyContents()
    ensures Contents([]) == []
  {
  }

  // ---------------------------------------------------------------- selecting

  function Find(blocks: seq<Block>, id: string): Option<Block> {
    if blocks == [] then None
    else if blocks[0].id == id then Some(blocks[0])
    else Find(blocks[1..], id)
  }

  function InRange(blocks: seq<Block>, low: nat, high: nat): seq<Block> {
    if blocks == [] then []
    else (if low <= blocks[0].order <= high then [blocks[0]] else []) + InRange(blocks[1..], low, high)
  }

  function SelectOutputBlocks(blocks: seq<Block>, plan: OutputPlan): Result<seq<Block>, RenderError> {
    if plan.startBlockId.None? || plan.endBlockId.None? then Err(BoundaryMissing)
    else
      var start, end := Find(blocks, plan.startBlockId.value), Find(blocks, plan.endBlockId.value);
      if start.None? || end.None? then Err(BoundaryUnknown)
      else if start.value.order > end.value.order then Err(BoundaryReversed)
      else Ok(InRange(blocks, start.value.order, end.value.order))
  }

  function Range(body: seq<Node>, before: nat, low: nat, high: nat): seq<Node> {
    if body == [] then []
    else (if low <= before + 1 <= high then [body[0]] else []) + Range(body[1..], before + 1, low, high)
  }

  lemma {:induction false} InRangeContents(body: seq<Node>, before: nat, paragraphs: nat, low: nat, high: nat)
    ensures ContentsOfBlocks(InRange(BlocksFrom(body, before, paragraphs), low, high))
         == Contents(Range(body, before, low, high))
    decreases |body|
  {
    hide ContentOf;
    if body != [] {
      var n := Paragraphs(body[0], paragraphs);
      var rest := BlocksFrom(body[1..], before + 1, n);
      var all := BlocksFrom(body, before, paragraphs);
      InRangeContents(body[1..], before + 1, n, low, high);
      if ContentOf(body[0]).Some? { assert all[1..] == rest; } else { assert all == rest; }
      var tail := Range(body[1..], before + 1, low, high);
      if low <= before + 1 <= high {
        assert Range(body, before, low, high)[1..] == tail;
      } else {
        assert Range(body, before, low, high) == tail;
      }
    }
  }

  lemma {:induction false} RangeIsSlice(body: seq<Node>, before: nat, low: nat, high: nat)
    requires before < low <= high <= before + |body|
    ensures Range(body, before, low, high) == body[low - before - 1..high - before]
    decreases |body|
  {
    if before + 1 == low && high > low {
      RangeIsSlice(body[1..], before + 1, low + 1, high);
      RangeFromLater(body[1..], before + 1, low, high);
    } else if before + 1 < low {
      RangeIsSlice(body[1..], before + 1, low, high);
    } else {
      RangeEmpty(body[1..], before + 1, low, high);
    }
  }

  lemma {:induction false} RangeFromLater(body: seq<Node>, before: nat, low: nat, high: nat)
    requires before >= low
    ensures Range(body, before, low, high) == Range(body, before, low + 1, high)
    decreases |body|
  {
    if body != [] { RangeFromLater(body[1..], before + 1, low, high); }
  }

  lemma {:induction false} RangeEmpty(body: seq<Node>, before: nat, low: nat, high: nat)
    requires before >= high
    ensures Range(body, before, low, high) == []
    decreases |body|
  {
    if body != [] { RangeEmpty(body[1..], before + 1, low, high); }
  }

  /** Each block carries the id and the content of the node at its order. */
  lemma {:induction false} BlockPlaces(body: seq<Node>, before: nat, paragraphs: nat)
    ensures forall b | b in BlocksFrom(body, before, paragraphs) ::
      && before < b.order <= before + |body| && b.id == BlockId(b.order)
      && ContentOf(body[b.order - before - 1]) == Some(b.content)
    decreases |body|
  {
    hide ContentOf;
    if body != [] {
      var n := Paragraphs(body[0], paragraphs);
      BlockPlaces(body[1..], before + 1, n);
      forall b | b in BlocksFrom(body, before, paragraphs)
        ensures before < b.order <= before + |body| && b.id == BlockId(b.order)
          && ContentOf(body[b.order - before - 1]) == Some(b.content)
      {
        if b in BlocksFrom(body[1..], before + 1, n) {
          assert body[b.order - before - 1] == body[1..][b.order - before - 2];
        }
      }
    }
  }

  lemma {:induction false} FindFacts(blocks: seq<Block>, id: string)
    ensures var r := Find(blocks, id); r.Some? ==> r.value in blocks && r.value.id == id
    ensures Find(blocks, id).None? ==> forall b | b in blocks :: b.id != id
  {
    if blocks != [] { FindFacts(blocks[1..], id); }
  }

  lemma {:induction false} InRangeMembers(blocks: seq<Block>, low: nat, high: nat)
    ensures forall b :: b in InRange(blocks, low, high) <==> b in blocks && low <= b.order <= high
  {
    if blocks != [] { InRangeMembers(blocks[1..], low, high); }
  }

  function MinOrder(blocks: seq<Block>): nat
    requires blocks != []
  {
    if |blocks| == 1 then blocks[0].order
    else
      var m := MinOrder(blocks[1..]);
      if blocks[0].order <= m then blocks[0].order else m
  }

  function MaxOrder(blocks: seq<Block>): nat
    requires blocks != []
  {
    if |blocks| == 1 then blocks[0].order
    else
      var m := MaxOrder(blocks[1..]);
      if blocks[0].order >= m then blocks[0].order else m
  }

  lemma {:induction false} OrderBounds(blocks: seq<Block>, low: nat, high: nat)
    requires blocks != [] && forall i | 0 <= i < |blocks| :: low <= blocks[i].order <= high
    ensures low <= MinOrder(blocks) <= MaxOrder(blocks) <= high
    ensures forall i | 0 <= i < |blocks| :: MinOrder(blocks) <= blocks[i].order <= MaxOrder(blocks)
  {
    if |blocks| > 1 {
      var rest := blocks[1..];
      assert forall i | 0 <= i < |rest| :: rest[i] == blocks[i + 1];
      OrderBounds(rest, low, high);
      forall i | 0 <= i < |blocks| ensures MinOrder(blocks) <= blocks[i].order <= MaxOrder(blocks) {
        if i > 0 { assert blocks[i] == rest[i - 1]; }
      }
    }
  }

  ghost predicate BoundariesInOrder(body: seq<Node>, plan: OutputPlan) {
    && plan.startBlockId.Some? && plan.endBlockId.Some?
    && exists i: nat, j: nat ::
         i <= j && IsBlockAt(body, plan.startBlockId.value, i) && IsBlockAt(body, plan.endBlockId.value, j)
  }

  /** A boundary id is found exactly when some node with text has it, and then at that node's order. */
  lemma FindBoundary(body: seq<Node>, id: string)
    ensures var r := Find(BlocksFrom(body, 0, 0), id);
            && (forall i: nat | IsBlockAt(body, id, i) :: r.Some? && r.value.order == i)
            && (r.Some? ==> IsBlockAt(body, id, r.value.order) && r.value in BlocksFrom(body, 0, 0))
  {
    hide ContentOf;
    var blocks := BlocksFrom(body, 0, 0);
    BlockPlaces(body, 0, 0);
    FindFacts(blocks, id);
    var r := Find(blocks, id);
    forall i: nat | IsBlockAt(body, id, i) ensures r.Some? && r.value.order == i {
      BlockAtIsListed(body, 0, 0, i);
      BlockIdUnique(r, i);
    }
  }

  /**
   * A selection succeeds exactly for two known boundaries in order; it then spans from the first
   * boundary's node to the last one's, and holds exactly the blocks of that slice of the body.
   */
  lemma SelectionSpansSlice(body: seq<Node>, plan: OutputPlan)
    ensures var blocks := BlocksFrom(body, 0, 0);
            var r := SelectOutputBlocks(blocks, plan);
            && (r.Ok? <==> BoundariesInOrder(body, plan))
            && (r.Ok? ==>
                  && r.value != []
                  && var low, high := MinOrder(r.value), MaxOrder(r.value);
                     && IsBlockAt(body, plan.startBlockId.value, low) && IsBlockAt(body, plan.endBlockId.value, high)
                     && 1 <= low <= high <= |body|
                     && ContentsOfBlocks(r.value) == Contents(body[low - 1..high]))
  {
    hide ContentOf, BlocksFrom, Find, IsBlockAt, InRange, Contents, ContentsOfBlocks, MinOrder, MaxOrder;
    var blocks := BlocksFrom(body, 0, 0);
    if plan.startBlockId.Some? && plan.endBlockId.Some? {
      FindBoundary(body, plan.startBlockId.value);
      FindBoundary(body, plan.endBlockId.value);
      var start, end := Find(blocks, plan.startBlockId.value), Find(blocks, plan.endBlockId.value);
      if start.Some? && end.Some? && start.value.order <= end.value.order {
        SliceOfBlocks(body, start.value, end.value);
      }
    }
  }

  lemma SliceOfBlocks(body: seq<Node>, start: Block, end: Block)
    requires start in BlocksFrom(body, 0, 0) && end in BlocksFrom(body, 0, 0) && start.order <= end.order
    ensures var r := InRange(BlocksFrom(body, 0, 0), start.order, end.order);
            && r != [] && MinOrder(r) == start.order && MaxOrder(r) == end.order
            && 1 <= start.order <= end.order <= |body|
            && ContentsOfBlocks(r) == Contents(body[start.order - 1..end.order])
  {
    hide BlocksFrom, InRange, Contents, ContentsOfBlocks, Range, MinOrder, MaxOrder;
    OrderWithin(body, start);
    OrderWithin(body, end);
    InRangeContents(body, 0, 0, start.order, end.order);
    RangeIsSlice(body, 0, start.order, end.order);
    RangeBounds(BlocksFrom(body, 0, 0), start, end);
  }

  lemma OrderWithin(body: seq<Node>, b: Block)
    requires b in BlocksFrom(body, 0, 0)
    ensures 1 <= b.order <= |body|
  {
    BlockPlaces(body, 0, 0);
  }

  lemma RangeBounds(blocks: seq<Block>, start: Block, end: Block)
    requires start in blocks && end in blocks && start.order <= end.order
    ensures var r := InRange(blocks, start.order, end.order);
            r != [] && MinOrder(r) == start.order && MaxOrder(r) == end.order
  {
    InRangeMembers(blocks, start.order, end.order);
    hide InRange;
    var r := InRange(blocks, start.order, end.order);
    assert start in r && end in r;
    var i :| 0 <= i < |r| && r[i] == start;
    var j :| 0 <= j < |r| && r[j] == end;
    forall k | 0 <= k < |r| ensures start.order <= r[k].order <= end.order { assert r[k] in r; }
    OrderBounds(r, start.order, end.order);
  }

  /** The node at this order (counted from one) has text and this id. */
  ghost predicate IsBlockAt(body: seq<Node>, id: string, order: nat) {
    1 <= order <= |body| && id == BlockId(order) && ContentOf(body[order - 1]).Some?
  }

  lemma BlockIdUnique(found: Option<Block>, order: nat)
    ensures found.Some? && found.value.id == BlockId(found.value.order) && found.value.id == BlockId(order) ==>
              found.value.order == order
  {
    if found.Some? && BlockId(found.value.order) == BlockId(order) {
      BlockIdInjective(found.value.order, order);
    }
  }

  lemma {:induction false} BlockAtIsListed(body: seq<Node>, before: nat, paragraphs: nat, order: nat)
    requires before < order <= before + |body| && ContentOf(body[order - before - 1]).Some?
    ensures exists b :: b in BlocksFrom(body, before, paragraphs) && b.id == BlockId(order)
    decreases |body|
  {
    hide ContentOf;
    var n := Paragraphs(body[0], paragraphs);
    var all := BlocksFrom(body, before, paragraphs);
    if order == before + 1 {
      assert all[0].id == BlockId(order);
    } else {
      BlockAtIsListed(body[1..], before + 1, n, order);
      var b :| b in BlocksFrom(body[1..], before + 1, n) && b.id == BlockId(order);
      assert b in all;
    }
  }

  // ---------------------------------------------------------------- rendering

  const TITLE_SUFFIX := " - 投标骨架"
  const INSTRUCTION := "以下内容依据当前招标文件生成，请补充待填写内容。"
  const PLACEHOLDER := "[待填写：招标文件已明确要求此项内容。]"

  function TextParagraph(text: string): Node { Paragraph(text, "plain") }
  function BoldParagraph(text: string): Node { Paragraph(text, "bold") }
  function PageBreak(): Node { Paragraph("", "page break") }

  function FirstSectionProperties(body: seq<Node>): seq<Node> {
    if body == [] then []
    else if body[0].SectionProperties? then [body[0]]
    else FirstSectionProperties(body[1..])
  }

  function WithoutSectionProperties(body: seq<Node>): seq<Node> {
    if body == [] then []
    else (if body[0].SectionProperties? then [] else [body[0]]) + WithoutSectionProperties(body[1..])
  }

  function CopiedTitles(blocks: seq<Block>): set<string> {
    set b | b in blocks :: Strip(b.content.text)
  }

  /** The titles still to be added: not blank and not copied with the range; repeats stay repeated. */
  function MissingTitles(titles: seq<string>, copied: set<string>): seq<string> {
    if titles == [] then []
    else
      var t := Strip(titles[0]);
      (if t == [] || t in copied then [] else [t]) + MissingTitles(titles[1..], copied)
  }

  function TitleNodes(titles: seq<string>): seq<Node> {
    if titles == [] then []
    else [BoldParagraph(titles[0]), TextParagraph(PLACEHOLDER)] + TitleNodes(titles[1..])
  }

  function TitleContents(titles: seq<string>): seq<Content> {
    if titles == [] then []
    else [ParagraphContent(titles[0]), ParagraphContent(PLACEHOLDER)] + TitleContents(titles[1..])
  }

  function Header(name: string): seq<Node> {
    [TextParagraph(name + TITLE_SUFFIX), TextParagraph(INSTRUCTION), PageBreak()]
  }

  function Skeleton(body: seq<Node>, plan: OutputPlan, selected: seq<Block>, low: nat, high: nat): seq<Node>
    requires 1 <= low <= high <= |body|
  {
    Header(plan.name)
    + WithoutSectionProperties(body[low - 1..high])
    + TitleNodes(MissingTitles(plan.sectionTitles, CopiedTitles(selected)))
    + FirstSectionProperties(body)
  }

  /** What `_render_output` makes of a body. */
  function Rendered(body: seq<Node>, plan: OutputPlan): (r: Result<seq<Node>, RenderError>)
    ensures r.Ok? <==> BoundariesInOrder(body, plan)
  {
    SelectionSpansSlice(body, plan);
    var selection := SelectOutputBlocks(BlocksFrom(body, 0, 0), plan);
    if selection.Err? then Err(selection.error)
    else
      Ok(Skeleton(body, plan, selection.value, MinOrder(selection.value), MaxOrder(selection.value)))
  }

  /** `_render_output`, as the rewriting of the body. */
  method RenderOutput(body: seq<Node>, plan: OutputPlan) returns (r: Result<seq<Node>, RenderError>)
    ensures r == Rendered(body, plan)
  {
    var blocks := IterDocumentBlocks(body);
    var selection := SelectOutputBlocks(blocks, plan);
    if selection.Err? { return Err(selection.error); }
    var selected := selection.value;
    SelectionSpansSlice(body, plan);
    var startOrder, endOrder := MinOrder(selected), MaxOrder(selected);
    var range := CopyRange(body[startOrder - 1..endOrder]);
    var titles := AppendTitles(plan.sectionTitles, CopiedTitles(selected));
    r := Ok(Header(plan.name) + range + titles + FirstSectionProperties(body));
  }

  method CopyRange(sourceChildren: seq<Node>) returns (output: seq<Node>)
    ensures output == WithoutSectionProperties(sourceChildren)
  {
    output := [];
    for i := 0 to |sourceChildren|
      invariant output + WithoutSectionProperties(sourceChildren[i..]) == WithoutSectionProperties(sourceChildren)
    {
      assert sourceChildren[i..][1..] == sourceChildren[i + 1..];
      if !sourceChildren[i].SectionProperties? { output := output + [sourceChildren[i]]; }
    }
  }

  method AppendTitles(sectionTitles: seq<string>, copiedTitles: set<string>) returns (output: seq<Node>)
    ensures output == TitleNodes(MissingTitles(sectionTitles, copiedTitles))
  {
    output := [];
    hide Strip, TitleNodes, MissingTitles;
    for i := 0 to |sectionTitles|
      invariant output + TitleNodes(MissingTitles(sectionTitles[i..], copiedTitles))
             == TitleNodes(MissingTitles(sectionTitles, copiedTitles))
    {
      hide Strip, TitleNodes, MissingTitles;
      var rest := sectionTitles[i..];
      assert rest[1..] == sectionTitles[i + 1..] && rest[0] == sectionTitles[i];
      TitleNodesStep(rest, copiedTitles);
      ghost var later := TitleNodes(MissingTitles(sectionTitles[i + 1..], copiedTitles));
      var title := Strip(sectionTitles[i]);
      if title != [] && title !in copiedTitles {
        var pair := [BoldParagraph(title), TextParagraph(PLACEHOLDER)];
        assert output + (pair + later) == (output + pair) + later;
        output := output + pair;
      } else {
        assert [] + later == later;
      }
    }
    NoTitlesLeft(sectionTitles, copiedTitles);
  }

  lemma NoTitlesLeft(titles: seq<string>, copied: set<string>)
    ensures TitleNodes(MissingTitles(titles[|titles|..], copied)) == []
  {
  }

  lemma TitleNodesStep(titles: seq<string>, copied: set<string>)
    requires titles != []
    ensures var t := Strip(titles[0]);
            TitleNodes(MissingTitles(titles, copied))
            == (if t == [] || t in copied then [] else [BoldParagraph(t), TextParagraph(PLACEHOLDER)])
               + TitleNodes(MissingTitles(titles[1..], copied))
  {
    var t := Strip(titles[0]);
    var rest := MissingTitles(titles[1..], copied);
    if !(t == [] || t in copied) {
      assert MissingTitles(titles, copied)[1..] == rest;
    } else {
      assert MissingTitles(titles, copied) == rest;
    }
  }

  // ---------------------------------------------------------------- reading the rendered body back

  lemma {:induction false} SectionPropertiesHaveNoContent(body: seq<Node>)
    ensures Contents(WithoutSectionProperties(body)) == Contents(body)
    ensures Contents(FirstSectionProperties(body)) == []
    decreases |body|
  {
    if body != [] {
      SectionPropertiesHaveNoContent(body[1..]);
      if body[0].SectionProperties? {
        assert FirstSectionProperties(body)[1..] == [];
        assert WithoutSectionProperties(body) == WithoutSectionProperties(body[1..]);
      } else {
        assert WithoutSectionProperties(body)[1..] == WithoutSectionProperties(body[1..]);
      }
    }
  }

  lemma FixedTexts(name: string)
    ensures Strip(INSTRUCTION) == INSTRUCTION && Strip(PLACEHOLDER) == PLACEHOLDER
    ensures Strip(name + TITLE_SUFFIX) != []
  {
    StripFixed(INSTRUCTION);
    StripFixed(PLACEHOLDER);
    var title := name + TITLE_SUFFIX;
    assert !IsSpace(title[|title| - 1]) by { assert title[|title| - 1] == TITLE_SUFFIX[|TITLE_SUFFIX| - 1]; }
    StripEmpty(title);
  }

  lemma {:induction false} TitleNodesContents(titles: seq<string>, copied: set<string>)
    ensures Contents(TitleNodes(MissingTitles(titles, copied))) == TitleContents(MissingTitles(titles, copied))
    decreases |titles|
  {
    if titles != [] {
      var t := Strip(titles[0]);
      var rest := MissingTitles(titles[1..], copied);
      TitleNodesContents(titles[1..], copied);
      if !(t == [] || t in copied) {
        StripIdempotent(titles[0]);
        FixedTexts("");
        PairContents(t, TitleNodes(rest));
        assert MissingTitles(titles, copied)[1..] == rest;
      } else {
        assert MissingTitles(titles, copied) == rest;
      }
    }
  }

  lemma PairContents(title: string, rest: seq<Node>)
    requires title != [] && Strip(title) == title
    ensures Contents([BoldParagraph(title), TextParagraph(PLACEHOLDER)] + rest)
            == [ParagraphContent(title), ParagraphContent(PLACEHOLDER)] + Contents(rest)
  {
    FixedTexts("");
    ContentsCons(TextParagraph(PLACEHOLDER), rest);
    ContentsCons(BoldParagraph(title), [TextParagraph(PLACEHOLDER)] + rest);
    assert [BoldParagraph(title), TextParagraph(PLACEHOLDER)] + rest ==
        [BoldParagraph(title)] + ([TextParagraph(PLACEHOLDER)] + rest);
  }

  lemma HeaderContents(name: string)
    ensures Contents(Header(name)) == [ParagraphContent(Strip(name + TITLE_SUFFIX)), ParagraphContent(INSTRUCTION)]
  {
    FixedTexts(name);
    var title, instruction, pageBreak := TextParagraph(name + TITLE_SUFFIX), TextParagraph(INSTRUCTION), PageBreak();
    ContentsCons(pageBreak, []);
    ContentsCons(instruction, [pageBreak]);
    ContentsCons(title, [instruction, pageBreak]);
    assert Header(name) == [title] + [instruction, pageBreak];
    assert [instruction, pageBreak] == [instruction] + [pageBreak];
    assert [pageBreak] == [pageBreak] + [];
    assert ContentOf(pageBreak).None? by { assert Strip("") == []; }
  }

  /**
   * Reading a rendered skeleton back gives the two heading blocks, then exactly the blocks of the
   * chosen range of the source, then a title and a placeholder for each missing title.
   */
  lemma RereadSkeleton(body: seq<Node>, plan: OutputPlan, selected: seq<Block>)
    requires SelectOutputBlocks(BlocksFrom(body, 0, 0), plan) == Ok(selected)
    ensures selected != [] && 1 <= MinOrder(selected) <= MaxOrder(selected) <= |body|
    ensures var skeleton := Skeleton(body, plan, selected, MinOrder(selected), MaxOrder(selected));
            ContentsOfBlocks(BlocksFrom(skeleton, 0, 0))
            == [ParagraphContent(Strip(plan.name + TITLE_SUFFIX)), ParagraphContent(INSTRUCTION)]
               + ContentsOfBlocks(selected)
               + TitleContents(MissingTitles(plan.sectionTitles, CopiedTitles(selected)))
  {
    hide ContentOf, Contents, BlocksFrom, SelectOutputBlocks, TitleContents, TitleNodes, Header;
    hide FirstSectionProperties, WithoutSectionProperties;
    SelectionSpansSlice(body, plan);
    var low, high := MinOrder(selected), MaxOrder(selected);
    var missing := MissingTitles(plan.sectionTitles, CopiedTitles(selected));
    ReadingIsContents(Skeleton(body, plan, selected, low, high), 0, 0);
    SectionPropertiesHaveNoContent(body[low - 1..high]);
    SectionPropertiesHaveNoContent(body);
    TitleNodesContents(plan.sectionTitles, CopiedTitles(selected));
    HeaderContents(plan.name);
    var copied := WithoutSectionProperties(body[low - 1..high]);
    FourParts(Header(plan.name), copied, TitleNodes(missing), FirstSectionProperties(body));
  }

  lemma FourParts(a: seq<Node>, b: seq<Node>, c: seq<Node>, d: seq<Node>)
    ensures Contents(a + b + c + d) == Contents(a) + Contents(b) + Contents(c) + Contents(d)
  {
    ContentsAppend(a + b + c, d);
    ContentsAppend(a + b, c);
    ContentsAppend(a, b);
  }

  /** A requested title appears in the skeleton: as copied source text, or with a placeholder. */
  lemma {:induction false} EveryTitleIsCovered(titles: seq<string>, copied: set<string>, t: string)
    requires t in titles && Strip(t) != []
    ensures Strip(t) in copied || Strip(t) in MissingTitles(titles, copied)
  {
    if titles[0] != t {
      EveryTitleIsCovered(titles[1..], copied, t);
    }
  }

  /** Positions in order, exactly those of the nodes that are no section properties. */
  ghost predicate KeptPositions(nodes: seq<Node>, kept: seq<nat>) {
    && (forall i, j | 0 <= i < j < |kept| :: kept[i] < kept[j])
    && (forall p: nat :: p in kept <==> p < |nodes| && !nodes[p].SectionProperties?)
  }

  /** copied holds the nodes at the given positions. */
  ghost predicate PickedFrom(copied: seq<Node>, nodes: seq<Node>, kept: seq<nat>) {
    |copied| == |kept| && forall i | 0 <= i < |kept| :: kept[i] < |nodes| && copied[i] == nodes[kept[i]]
  }

  lemma {:induction false} CopyPositions(nodes: seq<Node>) returns (kept: seq<nat>)
    ensures KeptPositions(nodes, kept) && PickedFrom(WithoutSectionProperties(nodes), nodes, kept)
  {
    if nodes == [] {
      kept := [];
    } else {
      var rest := CopyPositions(nodes[1..]);
      var moved := seq(|rest|, i requires 0 <= i < |rest| => rest[i] + 1);
      hide KeptPositions, PickedFrom;
      MovedPositions(nodes, rest, moved);
      MovedPicks(nodes, WithoutSectionProperties(nodes[1..]), rest, moved);
      kept := if nodes[0].SectionProperties? then moved else [0] + moved;
      assert WithoutSectionProperties(nodes) ==
        (if nodes[0].SectionProperties? then [] else [nodes[0]]) + WithoutSectionProperties(nodes[1..]);
      hide WithoutSectionProperties;
      assert [] + WithoutSectionProperties(nodes[1..]) == WithoutSectionProperties(nodes[1..]);
    }
  }

  lemma MovedPicks(nodes: seq<Node>, copied: seq<Node>, rest: seq<nat>, moved: seq<nat>)
    requires nodes != [] && PickedFrom(copied, nodes[1..], rest)
    requires |moved| == |rest| && forall i | 0 <= i < |rest| :: moved[i] == rest[i] + 1
    ensures PickedFrom(copied, nodes, moved) && PickedFrom([nodes[0]] + copied, nodes, [0] + moved)
  {
  }

  lemma InMoved(rest: seq<nat>, moved: seq<nat>, p: nat)
    requires |moved| == |rest| && forall i | 0 <= i < |rest| :: moved[i] == rest[i] + 1
    ensures p in moved <==> p > 0 && p - 1 in rest
  {
    if p > 0 && p - 1 in rest {
      var i :| 0 <= i < |rest| && rest[i] == p - 1;
      assert moved[i] == p;
    }
    if p in moved {
      var i :| 0 <= i < |moved| && moved[i] == p;
      assert rest[i] == p - 1;
    }
  }

  lemma MovedPositions(nodes: seq<Node>, rest: seq<nat>, moved: seq<nat>)
    requires nodes != [] && KeptPositions(nodes[1..], rest)
    requires |moved| == |rest| && forall i | 0 <= i < |rest| :: moved[i] == rest[i] + 1
    ensures KeptPositions(nodes, if nodes[0].SectionProperties? then moved else [0] + moved)
  {
    var kept := if nodes[0].SectionProperties? then moved else [0] + moved;
    forall p: nat ensures p in kept <==> p < |nodes| && !nodes[p].SectionProperties? {
      InMoved(rest, moved, p);
      assert p in kept <==> p in moved || (p == 0 && !nodes[0].SectionProperties?);
      if p > 0 { assert p - 1 in rest <==> p - 1 < |nodes[1..]| && !nodes[1..][p - 1].SectionProperties?; }
    }
    forall i, j | 0 <= i < j < |kept| ensures kept[i] < kept[j] {}
  }

  /** The stripped texts of the blocks between two orders. */
  ghost function TextsBetween(body: seq<Node>, low: nat, high: nat): set<string> {
    set b | b in BlocksFrom(body, 0, 0) && low <= b.order <= high :: Strip(b.content.text)
  }

  lemma SelectedBetween(body: seq<Node>, plan: OutputPlan)
    requires var r := SelectOutputBlocks(BlocksFrom(body, 0, 0), plan); r.Ok? && r.value != []
    ensures var selected := SelectOutputBlocks(BlocksFrom(body, 0, 0), plan).value;
      CopiedTitles(selected) == TextsBetween(body, MinOrder(selected), MaxOrder(selected))
  {
    hide BlocksFrom, InRange, MinOrder, MaxOrder, Strip;
    var blocks := BlocksFrom(body, 0, 0);
    var start, end := Find(blocks, plan.startBlockId.value).value, Find(blocks, plan.endBlockId.value).value;
    FindFacts(blocks, plan.startBlockId.value);
    FindFacts(blocks, plan.endBlockId.value);
    hide Find;
    RangeBounds(blocks, start, end);
    InRangeMembers(blocks, start.order, end.order);
  }

  /** The parts of a rendering: the heading, the range less section properties, the titles, the last node. */
  lemma RenderedParts(body: seq<Node>, plan: OutputPlan) returns (low: nat, high: nat, titles: seq<string>)
    requires Rendered(body, plan).Ok?
    ensures 1 <= low <= high <= |body| && plan.startBlockId.Some? && plan.endBlockId.Some?
    ensures IsBlockAt(body, plan.startBlockId.value, low) && IsBlockAt(body, plan.endBlockId.value, high)
    ensures Rendered(body, plan).value ==
      Header(plan.name) + WithoutSectionProperties(body[low - 1..high])
      + TitleNodes(titles) + FirstSectionProperties(body)
    ensures titles == MissingTitles(plan.sectionTitles, TextsBetween(body, low, high))
  {
    hide IsBlockAt, BlocksFrom, MinOrder, MaxOrder, TitleNodes, FirstSectionProperties, WithoutSectionProperties;
    hide Contents, ContentsOfBlocks, MissingTitles, Header;
    SelectionSpansSlice(body, plan);
    SelectedBetween(body, plan);
    var selected := SelectOutputBlocks(BlocksFrom(body, 0, 0), plan).value;
    low, high := MinOrder(selected), MaxOrder(selected);
    titles := MissingTitles(plan.sectionTitles, CopiedTitles(selected));
  }

  /**
   * After the three heading nodes, the skeleton continues with the nodes between the boundaries, with
   * and without text, each in its order; only section properties are dropped.
   */
  lemma RangeCopiedInPlace(body: seq<Node>, plan: OutputPlan) returns (low: nat, high: nat, kept: seq<nat>)
    requires Rendered(body, plan).Ok?
    ensures 1 <= low <= high <= |body| && plan.startBlockId.Some? && plan.endBlockId.Some?
    ensures IsBlockAt(body, plan.startBlockId.value, low) && IsBlockAt(body, plan.endBlockId.value, high)
    ensures KeptPositions(body[low - 1..high], kept)
    ensures var skeleton := Rendered(body, plan).value;
      3 + |kept| <= |skeleton|
      && forall i | 0 <= i < |kept| :: kept[i] <= high - low && skeleton[3 + i] == body[low - 1 + kept[i]]
  {
    var titles: seq<string>;
    hide Rendered, IsBlockAt, KeptPositions, TitleNodes, FirstSectionProperties, WithoutSectionProperties;
    low, high, titles := RenderedParts(body, plan);
    var nodes := body[low - 1..high];
    kept := CopyPositions(nodes);
    MiddleOf(Header(plan.name), WithoutSectionProperties(nodes), TitleNodes(titles), FirstSectionProperties(body));
    assert |Header(plan.name)| == 3;
    hide Header;
    assert forall i | 0 <= i < |nodes| :: nodes[i] == body[low - 1 + i];
  }

  lemma MiddleOf(header: seq<Node>, copied: seq<Node>, titles: seq<Node>, last: seq<Node>)
    ensures forall i | 0 <= i < |copied| :: (header + copied + titles + last)[|header| + i] == copied[i]
  {
  }

  lemma {:induction false} FirstOfBody(body: seq<Node>) returns (first: nat)
    ensures |FirstSectionProperties(body)| <= 1
    ensures FirstSectionProperties(body) == [] <==> forall i | 0 <= i < |body| :: !body[i].SectionProperties?
    ensures FirstSectionProperties(body) != [] ==>
      && first < |body| && body[first].SectionProperties? && FirstSectionProperties(body) == [body[first]]
      && forall i | 0 <= i < first :: !body[i].SectionProperties?
  {
    first := 0;
    if body != [] && !body[0].SectionProperties? {
      var later := FirstOfBody(body[1..]);
      first := later + 1;
      assert forall i | 1 <= i < |body| :: body[i] == body[1..][i - 1];
    }
  }

  lemma {:induction false} TitlesHaveNoSection(titles: seq<string>)
    ensures forall n | n in TitleNodes(titles) :: !n.SectionProperties?
  {
    if titles != [] { TitlesHaveNoSection(titles[1..]); }
  }

  /** Section properties come back exactly once, at the very end, and as the first ones of the body. */
  lemma SectionPropertiesOnceAtEnd(body: seq<Node>, plan: OutputPlan) returns (first: nat)
    requires Rendered(body, plan).Ok?
    ensures var skeleton := Rendered(body, plan).value;
      && skeleton != []
      && (forall i | 0 <= i < |skeleton| - 1 :: !skeleton[i].SectionProperties?)
      && (skeleton[|skeleton| - 1].SectionProperties? <==> exists i :: 0 <= i < |body| && body[i].SectionProperties?)
      && (skeleton[|skeleton| - 1].SectionProperties? ==>
            && first < |body| && skeleton[|skeleton| - 1] == body[first]
            && forall i | 0 <= i < first :: !body[i].SectionProperties?)
  {
    hide Rendered, TitleNodes, FirstSectionProperties, WithoutSectionProperties;
    var low, high, titles := RenderedParts(body, plan);
    first := FirstOfBody(body);
    NoSectionInside(body[low - 1..high]);
    TitlesHaveNoSection(titles);
    var inside := Header(plan.name) + WithoutSectionProperties(body[low - 1..high]) + TitleNodes(titles);
    assert forall n | n in inside :: !n.SectionProperties?;
  }

  lemma {:induction false} NoSectionInside(nodes: seq<Node>)
    ensures forall n | n in WithoutSectionProperties(nodes) :: !n.SectionProperties?
  {
    if nodes != [] { NoSectionInside(nodes[1..]); }
  }
}
