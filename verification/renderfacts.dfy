/**
  Properties of the node renderer that relate several calls: table rows,
  list items against the bottom-up prefix walk, the link-text renderer
  against the main renderer, and code blocks.
*/
module RenderFacts {
  import opened Wrappers
  import opened Strings
  import opened Escape
  import opened Tree
  import opened ListPrefix
  import opened Renderer

  const Flat := Nesting([], OtherParent)

  /** The text a cell renders between its row's bars. */
  function CellText(cell: Node, header: bool, opts: Options): string
    requires cell.TableCell?
  {
    RenderChildren(cell.children, Flat, header, opts, 0)
  }

  function CellTexts(cells: seq<Node>, header: bool, opts: Options): (ts: seq<string>)
    requires forall i :: 0 <= i < |cells| ==> cells[i].TableCell?
    ensures |ts| == |cells|
  {
    if |cells| == 0 then [] else [CellText(cells[0], header, opts)] + CellTexts(cells[1..], header, opts)
  }

  function Bar(header: bool): string {
    if header then "||" else "|"
  }

  lemma {:induction false} CellsJoin(cells: seq<Node>, nest: Nesting, header: bool, opts: Options, i: nat)
    requires i < |cells|
    requires forall j :: 0 <= j < |cells| ==> cells[j].TableCell?
    ensures RenderChildren(cells, nest, header, opts, i)
         == Join(CellTexts(cells[i..], header, opts), " " + Bar(header) + " ") + " " + Bar(header)
    decreases |cells| - i
  {
    var ts := CellTexts(cells[i..], header, opts);
    var sep := " " + Bar(header) + " ";
    CellChild(cells, nest, header, opts, i);
    assert ts[0] == CellText(cells[i], header, opts);
    if i + 1 == |cells| {
      ChildrenEnd(cells, nest, header, opts);
      assert |ts| == 1;
    } else {
      CellsJoin(cells, nest, header, opts, i + 1);
      assert cells[i..][1..] == cells[i + 1..];
      assert ts[1..] == CellTexts(cells[i + 1..], header, opts);
      JoinCells(ts, sep, Bar(header), RenderChildren(cells, nest, header, opts, i + 1));
    }
  }

  /** The `i`-th cell of a row, then the cells after it. */
  lemma CellChild(cells: seq<Node>, nest: Nesting, header: bool, opts: Options, i: nat)
    requires i < |cells| && cells[i].TableCell?
    ensures RenderChildren(cells, nest, header, opts, i)
         == CellText(cells[i], header, opts) + CellEnd(header, i + 1 == |cells|) + RenderChildren(cells, nest, header, opts, i + 1)
    ensures CellEnd(header, i + 1 == |cells|) == " " + Bar(header) + (if i + 1 == |cells| then "" else " ")
  {
    CellRender(cells[i], ChildCtx(cells, i, nest, header), opts);
  }

  lemma JoinCells(ts: seq<string>, sep: string, bar: string, rest: string)
    requires |ts| >= 2 && sep == " " + bar + " " && rest == Join(ts[1..], sep) + " " + bar
    ensures ts[0] + (" " + bar + " ") + rest == Join(ts, sep) + " " + bar
  {
  }

  lemma CellRender(cell: Node, ctx: Ctx, opts: Options)
    requires cell.TableCell?
    ensures Render(cell, ctx, opts) == CellText(cell, ctx.header, opts) + CellEnd(ctx.header, ctx.lastCell)
    ensures CellEnd(ctx.header, ctx.lastCell) == " " + Bar(ctx.header) + (if ctx.lastCell then "" else " ")
  {
  }

  /**
    A row of one or more cells: a header row is `|| a || b ||`, a body row
    `| a | b |`, each followed by a newline.
  */
  lemma RowShape(cells: seq<Node>, ctx: Ctx, opts: Options)
    requires |cells| > 0
    requires forall j :: 0 <= j < |cells| ==> cells[j].TableCell?
    ensures ctx.header ==>
      Render(TableRow(cells), ctx, opts) == "|| " + Join(CellTexts(cells, true, opts), " || ") + " ||\n"
    ensures !ctx.header ==>
      Render(TableRow(cells), ctx, opts) == "| " + Join(CellTexts(cells, false, opts), " | ") + " |\n"
  {
    var nest := Enter(ctx.nest, OtherAnc);
    CellsJoin(cells, nest, ctx.header, opts, 0);
    assert cells[0..] == cells;
    RowRender(cells, ctx, opts);
    RowBars(CellTexts(cells, ctx.header, opts), ctx.header);
  }

  lemma RowRender(cells: seq<Node>, ctx: Ctx, opts: Options)
    ensures Render(TableRow(cells), ctx, opts)
         == (if ctx.header then "|| " else "| ") + RenderChildren(cells, Flat, ctx.header, opts, 0) + "\n"
  {
  }

  lemma RowBars(ts: seq<string>, header: bool)
    ensures header ==>
      "|| " + (Join(ts, " " + Bar(header) + " ") + " " + Bar(header)) + "\n" == "|| " + Join(ts, " || ") + " ||\n"
    ensures !header ==>
      "| " + (Join(ts, " " + Bar(header) + " ") + " " + Bar(header)) + "\n" == "| " + Join(ts, " | ") + " |\n"
  {
    if header {
      assert " " + Bar(true) + " " == " || ";
    } else {
      assert " " + Bar(false) + " " == " | ";
    }
  }

  /** Rows as the table parser builds them: each a row of one or more cells. */
  predicate TableRows(rows: seq<Node>) {
    forall j :: 0 <= j < |rows| ==> RowOfCells(rows[j])
  }

  predicate RowOfCells(row: Node) {
    row.TableRow? && |row.children| > 0 && forall k :: 0 <= k < |row.children| ==> row.children[k].TableCell?
  }

  /** One row's line: `|| a || b ||` in a head, `| a | b |` elsewhere, then a newline. */
  function RowLine(row: Node, header: bool, opts: Options): string
    requires RowOfCells(row)
  {
    if header then "|| " + Join(CellTexts(row.children, true, opts), " || ") + " ||\n"
    else "| " + Join(CellTexts(row.children, false, opts), " | ") + " |\n"
  }

  /** The lines of `rows`, one after another. */
  function RowLines(rows: seq<Node>, header: bool, opts: Options): string
    requires TableRows(rows)
  {
    if |rows| == 0 then "" else RowLine(rows[0], header, opts) + RowLines(rows[1..], header, opts)
  }

  /** Every row of a table head is rendered as a header row, whatever the flag outside the head. */
  lemma HeadRowsAreHeaders(rows: seq<Node>, ctx: Ctx, opts: Options)
    requires TableRows(rows)
    ensures Render(TableHead(rows), ctx, opts) == RenderChildren(rows, Flat, true, opts, 0)
    ensures Render(TableHead(rows), ctx, opts) == RowLines(rows, true, opts)
  {
    HeadRender(rows, ctx, opts);
    AllRows(rows, true, opts);
  }

  /** Outside a head, every row of a table body is rendered as a plain row. */
  lemma BodyRowsArePlain(rows: seq<Node>, ctx: Ctx, opts: Options)
    requires TableRows(rows) && !ctx.header
    ensures Render(TableBody(rows), ctx, opts) == RowLines(rows, false, opts)
  {
    BodyRender(rows, ctx, opts);
    AllRows(rows, false, opts);
  }

  lemma HeadRender(rows: seq<Node>, ctx: Ctx, opts: Options)
    ensures Render(TableHead(rows), ctx, opts) == RenderChildren(rows, Flat, true, opts, 0)
  {
  }

  lemma BodyRender(rows: seq<Node>, ctx: Ctx, opts: Options)
    ensures Render(TableBody(rows), ctx, opts) == RenderChildren(rows, Flat, ctx.header, opts, 0)
  {
  }

  /** The rows from `i` on render as their lines. */
  lemma {:induction false} RowsRender(rows: seq<Node>, nest: Nesting, header: bool, opts: Options, i: nat)
    requires TableRows(rows) && i <= |rows|
    ensures TableRows(rows[i..])
    ensures RenderChildren(rows, nest, header, opts, i) == RowLines(rows[i..], header, opts)
    decreases |rows| - i
  {
    assert TableRows(rows[i..]) by {
      forall j | 0 <= j < |rows[i..]| ensures RowOfCells(rows[i..][j]) {
        assert rows[i..][j] == rows[i + j];
      }
    }
    if i < |rows| {
      RowsRender(rows, nest, header, opts, i + 1);
      RowChild(rows, nest, header, opts, i);
      assert rows[i..][1..] == rows[i + 1..];
    }
  }

  lemma RowChild(rows: seq<Node>, nest: Nesting, header: bool, opts: Options, i: nat)
    requires i < |rows| && RowOfCells(rows[i])
    ensures RenderChildren(rows, nest, header, opts, i)
         == RowLine(rows[i], header, opts) + RenderChildren(rows, nest, header, opts, i + 1)
  {
    var ctx := ChildCtx(rows, i, nest, header);
    assert rows[i] == TableRow(rows[i].children);
    RowShape(rows[i].children, ctx, opts);
  }

  /**
    A table renders its head rows as header rows, drops the separator, renders
    its body rows as plain rows and ends with one newline; the header flag
    holds for the head's subtree only.
  */
  lemma TableSections(head: seq<Node>, sep: seq<Node>, body: seq<Node>, ctx: Ctx, opts: Options)
    requires TableRows(head) && TableRows(body) && !ctx.header
    ensures Render(TableBlock([TableHead(head), TableSeparator(sep), TableBody(body)]), ctx, opts)
         == RowLines(head, true, opts) + RowLines(body, false, opts) + "\n"
  {
    TableChildren(head, sep, body, ctx, opts);
    AllRows(head, true, opts);
    AllRows(body, false, opts);
  }

  lemma AllRows(rows: seq<Node>, header: bool, opts: Options)
    requires TableRows(rows)
    ensures RenderChildren(rows, Flat, header, opts, 0) == RowLines(rows, header, opts)
  {
    RowsRender(rows, Flat, header, opts, 0);
    assert rows[0..] == rows;
  }

  lemma TableChildren(head: seq<Node>, sep: seq<Node>, body: seq<Node>, ctx: Ctx, opts: Options)
    requires !ctx.header
    ensures Render(TableBlock([TableHead(head), TableSeparator(sep), TableBody(body)]), ctx, opts)
         == RenderChildren(head, Flat, true, opts, 0) + RenderChildren(body, Flat, false, opts, 0) + "\n"
  {
    var cs := [TableHead(head), TableSeparator(sep), TableBody(body)];
    var h, b := RenderChildren(head, Flat, true, opts, 0), RenderChildren(body, Flat, false, opts, 0);
    TableBlockRender(cs, ctx, opts);
    HeadChild(cs, head, Flat, false, opts, 0);
    SeparatorChild(cs, sep, Flat, false, opts, 1);
    BodyChild(cs, body, Flat, opts, 2);
    ChildrenEnd(cs, Flat, false, opts);
    JoinSections(RenderChildren(cs, Flat, false, opts, 0), RenderChildren(cs, Flat, false, opts, 1),
                 RenderChildren(cs, Flat, false, opts, 2), h, b, RenderChildren(cs, Flat, false, opts, 3));
  }

  /** A table with no body rows is its head rows and one newline. */
  lemma TableWithoutBody(head: seq<Node>, sep: seq<Node>, ctx: Ctx, opts: Options)
    requires TableRows(head) && !ctx.header
    ensures Render(TableBlock([TableHead(head), TableSeparator(sep)]), ctx, opts)
         == RowLines(head, true, opts) + "\n"
  {
    var cs := [TableHead(head), TableSeparator(sep)];
    TableBlockRender(cs, ctx, opts);
    HeadChild(cs, head, Flat, false, opts, 0);
    SeparatorChild(cs, sep, Flat, false, opts, 1);
    ChildrenEnd(cs, Flat, false, opts);
    AllRows(head, true, opts);
  }

  lemma TableBlockRender(cs: seq<Node>, ctx: Ctx, opts: Options)
    ensures Render(TableBlock(cs), ctx, opts) == RenderChildren(cs, Flat, ctx.header, opts, 0) + "\n"
  {
  }

  lemma HeadChild(cs: seq<Node>, head: seq<Node>, nest: Nesting, header: bool, opts: Options, i: nat)
    requires i < |cs| && cs[i] == TableHead(head)
    ensures RenderChildren(cs, nest, header, opts, i)
         == RenderChildren(head, Flat, true, opts, 0) + RenderChildren(cs, nest, header, opts, i + 1)
  {
  }

  lemma SeparatorChild(cs: seq<Node>, sep: seq<Node>, nest: Nesting, header: bool, opts: Options, i: nat)
    requires i < |cs| && cs[i] == TableSeparator(sep)
    ensures RenderChildren(cs, nest, header, opts, i) == "" + RenderChildren(cs, nest, header, opts, i + 1)
  {
  }

  lemma BodyChild(cs: seq<Node>, body: seq<Node>, nest: Nesting, opts: Options, i: nat)
    requires i < |cs| && cs[i] == TableBody(body)
    ensures RenderChildren(cs, nest, false, opts, i)
         == RenderChildren(body, Flat, false, opts, 0) + RenderChildren(cs, nest, false, opts, i + 1)
  {
  }

  lemma ChildrenEnd(cs: seq<Node>, nest: Nesting, header: bool, opts: Options)
    ensures RenderChildren(cs, nest, header, opts, |cs|) == ""
  {
  }

  lemma JoinSections(r0: string, r1: string, r2: string, h: string, b: string, r3: string)
    requires r0 == h + r1 && r1 == "" + r2 && r2 == b + r3 && r3 == ""
    ensures r0 + "\n" == h + b + "\n"
  {
  }

  /**
    The marker prefix the renderer gives an item reached along `path` from the
    root is the one the source's bottom-up walk computes over the same
    ancestors; then come a space, the checkbox marker, the content and a newline.
  */
  lemma ItemUsesWalk(path: seq<Ancestor>, kind: ItemKind, cs: seq<Node>, ctx: Ctx, opts: Options)
    requires ctx.nest == EnterAll(Root, path)
    ensures Render(ListItem(kind, cs), ctx, opts)
         == WalkPrefix(Reverse(path), DefaultMarker(kind)) + " " + TaskMarker(kind)
            + ItemContent(cs, Enter(ctx.nest, ItemAnc), ctx.header, opts, 0) + "\n"
  {
    TopDownEqualsBottomUp(path, DefaultMarker(kind));
    assert ItemPrefix(ctx.nest, DefaultMarker(kind)) == WalkPrefix(Reverse(path), DefaultMarker(kind));
    ItemRender(kind, cs, ctx, opts);
  }

  lemma ItemRender(kind: ItemKind, cs: seq<Node>, ctx: Ctx, opts: Options)
    ensures Render(ListItem(kind, cs), ctx, opts)
         == ItemPrefix(ctx.nest, DefaultMarker(kind)) + " " + TaskMarker(kind)
            + ItemContent(cs, Enter(ctx.nest, ItemAnc), ctx.header, opts, 0) + "\n"
  {
  }

  /** Content without list children is the plain rendering of the children. */
  lemma {:induction false} ItemContentNewlines(cs: seq<Node>, nest: Nesting, header: bool, opts: Options, i: nat)
    requires i <= |cs|
    requires forall j :: i <= j < |cs| ==> !cs[j].ListBlock?
    ensures ItemContent(cs, nest, header, opts, i) == RenderChildren(cs, nest, header, opts, i)
    decreases |cs| - i
  {
    if i < |cs| {
      ItemContentNewlines(cs, nest, header, opts, i + 1);
    }
  }

  /**
    An item holding a paragraph and a nested list: the paragraph ends without
    a blank line, the nested list starts after exactly one newline, and it
    adds no newline of its own after its items.
  */
  lemma ItemWithSublist(p: seq<Node>, k: ListKind, items: seq<Node>, nest: Nesting, header: bool, opts: Options)
    requires nest.parent == ItemParent
    ensures ItemContent([Paragraph(p), ListBlock(k, items)], nest, header, opts, 0)
         == RenderChildren(p, Flat, header, opts, 0) + "\n"
            + RenderChildren(items, Enter(nest, ListAnc(k)), header, opts, 0)
  {
    var cs := [Paragraph(p), ListBlock(k, items)];
    ParagraphChild(cs, p, nest, header, opts, 0);
    SublistChild(cs, k, items, nest, header, opts, 1);
    ItemContentEnd(cs, nest, header, opts);
    JoinItem(ItemContent(cs, nest, header, opts, 0), ItemContent(cs, nest, header, opts, 1),
             ItemContent(cs, nest, header, opts, 2), RenderChildren(p, Flat, header, opts, 0),
             RenderChildren(items, Enter(nest, ListAnc(k)), header, opts, 0));
  }

  /** A paragraph inside an item adds no blank line after its text. */
  lemma ParagraphChild(cs: seq<Node>, p: seq<Node>, nest: Nesting, header: bool, opts: Options, i: nat)
    requires i < |cs| && cs[i] == Paragraph(p) && nest.parent == ItemParent
    ensures ItemContent(cs, nest, header, opts, i)
         == RenderChildren(p, Flat, header, opts, 0) + ItemContent(cs, nest, header, opts, i + 1)
  {
  }

  /** A list inside an item starts on a new line and adds no newline after its items. */
  lemma SublistChild(cs: seq<Node>, k: ListKind, items: seq<Node>, nest: Nesting, header: bool, opts: Options, i: nat)
    requires i < |cs| && cs[i] == ListBlock(k, items) && nest.parent == ItemParent
    ensures ItemContent(cs, nest, header, opts, i)
         == "\n" + RenderChildren(items, Enter(nest, ListAnc(k)), header, opts, 0) + ItemContent(cs, nest, header, opts, i + 1)
  {
  }

  lemma ItemContentEnd(cs: seq<Node>, nest: Nesting, header: bool, opts: Options)
    ensures ItemContent(cs, nest, header, opts, |cs|) == ""
  {
  }

  lemma JoinItem(i0: string, i1: string, i2: string, a: string, b: string)
    requires i0 == a + i1 && i1 == "\n" + b + i2 && i2 == ""
    ensures i0 == a + "\n" + b
  {
  }

  /** A list outside any item closes with one extra newline after its items. */
  lemma TopListTrailer(k: ListKind, items: seq<Node>, ctx: Ctx, opts: Options)
    requires ctx.nest.parent != ItemParent
    ensures Render(ListBlock(k, items), ctx, opts)
         == RenderChildren(items, Nesting([k], ListParent), ctx.header, opts, 0) + "\n"
  {
    assert Enter(ctx.nest, ListAnc(k)) == Nesting([k], ListParent);
  }

  /** Nodes both inline renderers handle the same way, all the way down. */
  predicate SimpleInline(n: Node)
    decreases n, 0
  {
    match n
    case Text(_) => true
    case Code(_) => true
    case SoftLineBreak => true
    case HardLineBreak => true
    case HtmlEntity(_) => true
    case StrongEmphasis(cs) => AllSimple(cs, 0)
    case Emphasis(cs) => AllSimple(cs, 0)
    case Strikethrough(cs) => AllSimple(cs, 0)
    case _ => false
  }

  predicate AllSimple(cs: seq<Node>, i: nat)
    requires i <= |cs|
    decreases cs, |cs| - i
  {
    i == |cs| || (SimpleInline(cs[i]) && AllSimple(cs, i + 1))
  }

  /**
    On text, code, emphasis, strikethrough, line breaks and entities the
    link-text renderer produces exactly what the main renderer produces, in any context.
  */
  lemma {:induction false} CollectAgrees(n: Node, ctx: Ctx, opts: Options)
    requires SimpleInline(n)
    ensures CollectOne(n) == Render(n, ctx, opts)
    decreases n, 0
  {
    match n
    case StrongEmphasis(cs) => CollectAllAgrees(cs, Enter(ctx.nest, OtherAnc), ctx.header, opts, 0);
    case Emphasis(cs) => CollectAllAgrees(cs, Enter(ctx.nest, OtherAnc), ctx.header, opts, 0);
    case Strikethrough(cs) => CollectAllAgrees(cs, Enter(ctx.nest, OtherAnc), ctx.header, opts, 0);
    case _ =>
  }

  lemma {:induction false} CollectAllAgrees(cs: seq<Node>, nest: Nesting, header: bool, opts: Options, i: nat)
    requires i <= |cs| && AllSimple(cs, i)
    ensures CollectInline(cs, i) == RenderChildren(cs, nest, header, opts, i)
    decreases cs, |cs| - i
  {
    if i < |cs| {
      CollectAgrees(cs[i], ChildCtx(cs, i, nest, header), opts);
      CollectAllAgrees(cs, nest, header, opts, i + 1);
    }
  }

  lemma {:induction false} JoinEmpty(ps: seq<string>, sep: string)
    requires forall i :: 0 <= i < |ps| ==> ps[i] != ""
    ensures Join(ps, sep) == "" <==> |ps| == 0
  {
    if |ps| >= 2 {
      assert |Join(ps, sep)| >= |ps[0]| > 0;
    } else if |ps| == 1 {
      assert Join(ps, sep) == ps[0];
    }
  }

  /**
    A fenced block is `{code` + P + `}` newline, its content less one trailing
    newline, then newline `{code}` and a blank line, where P is empty when
    there are no parameters and otherwise `:` followed by the parameters
    joined by `|`.
  */
  lemma FencedShape(info: string, content: string, ctx: Ctx, opts: Options)
    ensures var ps := FencedParams(info, opts);
      Render(FencedCodeBlock(info, content), ctx, opts)
      == "{code" + (if ps == [] then "" else ":" + Join(ps, "|")) + "}\n"
         + DropFinalNewline(content) + "\n{code}\n\n"
  {
    FencedRender(info, content, ctx, opts);
    ParamsNonEmpty(info, opts);
    CodeBlockShape(FencedParams(info, opts), content);
  }

  lemma FencedRender(info: string, content: string, ctx: Ctx, opts: Options)
    ensures Render(FencedCodeBlock(info, content), ctx, opts) == CodeBlock(FencedParams(info, opts), content)
  {
  }

  lemma ParamsNonEmpty(info: string, opts: Options)
    ensures forall i :: 0 <= i < |FencedParams(info, opts)| ==> FencedParams(info, opts)[i] != ""
  {
  }

  lemma CodeBlockShape(ps: seq<string>, content: string)
    requires forall i :: 0 <= i < |ps| ==> ps[i] != ""
    ensures CodeBlock(ps, content)
         == "{code" + (if ps == [] then "" else ":" + Join(ps, "|")) + "}\n" + DropFinalNewline(content) + "\n{code}\n\n"
  {
    JoinEmpty(ps, "|");
  }

  /** An indented block carries the theme as its only parameter. */
  lemma IndentedShape(content: string, ctx: Ctx, opts: Options)
    ensures HasTheme(opts) ==>
      Render(IndentedCodeBlock(content), ctx, opts)
      == "{code:theme=" + opts.theme.value + "}\n" + DropFinalNewline(content) + "\n{code}\n\n"
    ensures !HasTheme(opts) ==>
      Render(IndentedCodeBlock(content), ctx, opts) == "{code}\n" + DropFinalNewline(content) + "\n{code}\n\n"
  {
    IndentedRender(content, ctx, opts);
    ThemedBlock(opts, content);
  }

  lemma IndentedRender(content: string, ctx: Ctx, opts: Options)
    ensures Render(IndentedCodeBlock(content), ctx, opts) == CodeBlock(ThemeParams(opts), content)
  {
  }

  lemma ThemedBlock(opts: Options, content: string)
    ensures HasTheme(opts) ==>
      CodeBlock(ThemeParams(opts), content)
      == "{code:theme=" + opts.theme.value + "}\n" + DropFinalNewline(content) + "\n{code}\n\n"
    ensures !HasTheme(opts) ==>
      CodeBlock(ThemeParams(opts), content) == "{code}\n" + DropFinalNewline(content) + "\n{code}\n\n"
  {
    if HasTheme(opts) {
      assert Join(ThemeParams(opts), "|") == "theme=" + opts.theme.value;
    } else {
      assert Join(ThemeParams(opts), "|") == "";
    }
  }

  /** The fixed wrappers of the inline kinds: strong `*`, emphasis `_`, strikethrough `-`. */
  lemma InlineWrappers(cs: seq<Node>, ctx: Ctx, opts: Options)
    ensures Render(StrongEmphasis(cs), ctx, opts) == "*" + RenderChildren(cs, Flat, ctx.header, opts, 0) + "*"
    ensures Render(Emphasis(cs), ctx, opts) == "_" + RenderChildren(cs, Flat, ctx.header, opts, 0) + "_"
    ensures Render(Strikethrough(cs), ctx, opts) == "-" + RenderChildren(cs, Flat, ctx.header, opts, 0) + "-"
    ensures Render(SoftLineBreak, ctx, opts) == "\n" && Render(HardLineBreak, ctx, opts) == "\n"
  {
  }

  /** The fixed wrappers of the block kinds; the table separator emits nothing. */
  lemma BlockWrappers(cs: seq<Node>, ctx: Ctx, opts: Options, level: nat)
    ensures Render(Heading(level, cs), ctx, opts) == "h" + Decimal(level) + ". " + RenderChildren(cs, Flat, ctx.header, opts, 0) + "\n\n"
    ensures Render(BlockQuote(cs), ctx, opts) == "{quote}\n" + RenderChildren(cs, Flat, ctx.header, opts, 0) + "{quote}\n\n"
    ensures Render(ThematicBreak, ctx, opts) == "----\n\n"
    ensures Render(TableSeparator(cs), ctx, opts) == ""
  {
    HeadingRender(cs, ctx, opts, level);
    QuoteRender(cs, ctx, opts);
    BreakRender(ctx, opts);
    SeparatorRender(cs, ctx, opts);
  }

  lemma HeadingRender(cs: seq<Node>, ctx: Ctx, opts: Options, level: nat)
    ensures Render(Heading(level, cs), ctx, opts) == "h" + Decimal(level) + ". " + RenderChildren(cs, Flat, ctx.header, opts, 0) + "\n\n"
  {
  }

  lemma QuoteRender(cs: seq<Node>, ctx: Ctx, opts: Options)
    ensures Render(BlockQuote(cs), ctx, opts) == "{quote}\n" + RenderChildren(cs, Flat, ctx.header, opts, 0) + "{quote}\n\n"
  {
  }

  lemma BreakRender(ctx: Ctx, opts: Options)
    ensures Render(ThematicBreak, ctx, opts) == "----\n\n"
  {
  }

  lemma SeparatorRender(cs: seq<Node>, ctx: Ctx, opts: Options)
    ensures Render(TableSeparator(cs), ctx, opts) == ""
  {
  }

  /** Raw HTML, block or inline, and entities pass through unchanged. */
  lemma HtmlPassThrough(chars: string, ctx: Ctx, opts: Options)
    ensures Render(HtmlBlock(chars), ctx, opts) == chars
    ensures Render(HtmlInline(chars), ctx, opts) == chars
    ensures Render(HtmlEntity(chars), ctx, opts) == chars
  {
  }
}
