/**
  Where NUL can appear in a rendering. The post-processing marks protected
  blocks and inline code with NUL-delimited placeholders, so it relies on the
  renderer emitting NUL only inside the inline-code markers. A tree with no
  inline code and no NUL in its texts, rendered with a NUL-free theme, gives
  NUL-free text through every handler.
*/
module RenderNul {
  import opened Strings
  import opened Escape
  import opened Tree
  import opened ListPrefix
  import opened Renderer

  /** A tree with no inline code and no NUL in any of its texts. */
  predicate NulFree(n: Node)
    decreases n, 1
  {
    match n
    case Code(_) => false
    case Text(chars) => NoChar(chars, NUL)
    case HtmlEntity(chars) => NoChar(chars, NUL)
    case HtmlInline(chars) => NoChar(chars, NUL)
    case HtmlBlock(chars) => NoChar(chars, NUL)
    case FencedCodeBlock(info, content) => NoChar(info, NUL) && NoChar(content, NUL)
    case IndentedCodeBlock(content) => NoChar(content, NUL)
    case SoftLineBreak => true
    case HardLineBreak => true
    case ThematicBreak => true
    case Link(url, cs) => NoChar(url, NUL) && AllNulFree(cs)
    case AutoLink(text, cs) => NoChar(text, NUL) && AllNulFree(cs)
    case MailLink(text, cs) => NoChar(text, NUL) && AllNulFree(cs)
    case Image(url, alt, cs) => NoChar(url, NUL) && NoChar(alt, NUL) && AllNulFree(cs)
    case Document(cs) => AllNulFree(cs)
    case StrongEmphasis(cs) => AllNulFree(cs)
    case Emphasis(cs) => AllNulFree(cs)
    case Strikethrough(cs) => AllNulFree(cs)
    case TextBase(cs) => AllNulFree(cs)
    case Heading(_, cs) => AllNulFree(cs)
    case Paragraph(cs) => AllNulFree(cs)
    case BlockQuote(cs) => AllNulFree(cs)
    case ListBlock(_, cs) => AllNulFree(cs)
    case ListItem(_, cs) => AllNulFree(cs)
    case TableBlock(cs) => AllNulFree(cs)
    case TableHead(cs) => AllNulFree(cs)
    case TableBody(cs) => AllNulFree(cs)
    case TableRow(cs) => AllNulFree(cs)
    case TableCell(cs) => AllNulFree(cs)
    case TableSeparator(cs) => AllNulFree(cs)
  }

  predicate AllNulFree(cs: seq<Node>)
    decreases cs, 0
  {
    forall i :: 0 <= i < |cs| ==> NulFree(cs[i])
  }

  predicate NulFreeOpts(opts: Options) {
    opts.theme.Some? ==> NoChar(opts.theme.value, NUL)
  }

  // ---------------------------------------------------------------------
  // The main renderer
  // ---------------------------------------------------------------------

  /** Every handler emits NUL only through inline code. */
  lemma {:induction false} RenderNulFree(n: Node, ctx: Ctx, opts: Options)
    requires NulFree(n) && NulFreeOpts(opts)
    ensures NoChar(Render(n, ctx, opts), NUL)
    decreases n, 2
  {
    if n.FencedCodeBlock? || n.IndentedCodeBlock? {
      CodeBlockNulFree(n, ctx, opts);
    } else if n.ListItem? {
      ItemNulFree(n, ctx, opts);
    } else if n.TableRow? || n.TableCell? {
      RowNulFree(n, ctx, opts);
    } else if n.Heading? {
      HeadingNulFree(n, ctx, opts);
    } else if n.StrongEmphasis? || n.Emphasis? || n.Strikethrough? || n.BlockQuote? {
      MarkedTextNulFree(n, ctx, opts);
    } else if n.Paragraph? || n.ListBlock? || n.TableBlock? {
      TrailedNulFree(n, ctx, opts);
    } else if n.Document? || n.TextBase? || n.TableHead? || n.TableBody? {
      GroupNulFree(n, ctx, opts);
    } else {
      LeafNulFree(n, ctx, opts);
    }
  }

  /** The handlers that render no child through the main renderer. */
  lemma LeafNulFree(n: Node, ctx: Ctx, opts: Options)
    requires NulFree(n) && NulFreeOpts(opts)
    requires n.Link? || n.AutoLink? || n.MailLink? || n.Image? || n.Text? || n.Code?
       || n.HtmlEntity? || n.HtmlInline? || n.HtmlBlock? || n.SoftLineBreak? || n.HardLineBreak?
       || n.ThematicBreak? || n.TableSeparator?
    ensures NoChar(Render(n, ctx, opts), NUL)
    decreases n, 1
  {
    if n.Link? || n.AutoLink? || n.MailLink? || n.Image? {
      LinkNulFree(n, ctx, opts);
    }
  }

  /** Links and images: brackets, bars and `!` around NUL-free text. */
  lemma LinkNulFree(n: Node, ctx: Ctx, opts: Options)
    requires NulFree(n) && (n.Link? || n.AutoLink? || n.MailLink? || n.Image?)
    ensures NoChar(Render(n, ctx, opts), NUL)
    decreases n, 0
  {
    match n
    case Link(url, cs) =>
      CollectNulFree(cs, 0);
      LinkNoNul(url, CollectInline(cs, 0));
    case AutoLink(text, _) =>
      NoNul3("[", text, "]");
    case MailLink(text, _) =>
      NoNul3("[mailto:", text, "]");
    case Image(url, alt, _) =>
      ImageNoNul(url, alt);
  }

  /** Both code-block handlers: the parameters and the content carry no NUL in. */
  lemma CodeBlockNulFree(n: Node, ctx: Ctx, opts: Options)
    requires NulFree(n) && NulFreeOpts(opts)
    requires n.FencedCodeBlock? || n.IndentedCodeBlock?
    ensures NoChar(Render(n, ctx, opts), NUL)
  {
    match n
    case FencedCodeBlock(info, content) =>
      FencedParamsClean(info, opts, NUL);
    case IndentedCodeBlock(content) =>
      ThemeNoNul(opts);
  }

  /** A list item: its prefix, task marker and content. */
  lemma ItemNulFree(n: Node, ctx: Ctx, opts: Options)
    requires NulFree(n) && NulFreeOpts(opts) && n.ListItem?
    ensures NoChar(Render(n, ctx, opts), NUL)
    decreases n, 1
  {
    var inner := Enter(ctx.nest, ItemAnc);
    ItemContentNulFree(n.children, inner, ctx.header, opts, 0);
    var p := ItemPrefix(ctx.nest, DefaultMarker(n.item));
    assert NoChar(p, NUL);
    NoNul3(p, " ", TaskMarker(n.item));
    NoNul3(p + " " + TaskMarker(n.item), ItemContent(n.children, inner, ctx.header, opts, 0), "\n");
  }

  /** Table rows and cells: the row opener and newline, the cell separators. */
  lemma RowNulFree(n: Node, ctx: Ctx, opts: Options)
    requires NulFree(n) && NulFreeOpts(opts) && (n.TableRow? || n.TableCell?)
    ensures NoChar(Render(n, ctx, opts), NUL)
    decreases n, 1
  {
    var other := Enter(ctx.nest, OtherAnc);
    ChildrenNulFree(n.children, other, ctx.header, opts, 0);
    var inner := RenderChildren(n.children, other, ctx.header, opts, 0);
    if n.TableRow? {
      NoNul3(if ctx.header then "|| " else "| ", inner, "\n");
    } else {
      NoCharAppend(inner, CellEnd(ctx.header, ctx.lastCell), NUL);
    }
  }

  /** A heading: `h`, the level's digits, `. `, the text and a blank line. */
  lemma HeadingNulFree(n: Node, ctx: Ctx, opts: Options)
    requires NulFree(n) && NulFreeOpts(opts) && n.Heading?
    ensures NoChar(Render(n, ctx, opts), NUL)
    decreases n, 1
  {
    var other := Enter(ctx.nest, OtherAnc);
    ChildrenNulFree(n.children, other, ctx.header, opts, 0);
    NoNul3("h", Decimal(n.level), ". ");
    NoNul3("h" + Decimal(n.level) + ". ", RenderChildren(n.children, other, ctx.header, opts, 0), "\n\n");
  }

  /** Emphasis, strikethrough and quotes: fixed marks on both sides. */
  lemma MarkedTextNulFree(n: Node, ctx: Ctx, opts: Options)
    requires NulFree(n) && NulFreeOpts(opts)
    requires n.StrongEmphasis? || n.Emphasis? || n.Strikethrough? || n.BlockQuote?
    ensures NoChar(Render(n, ctx, opts), NUL)
    decreases n, 1
  {
    var other := Enter(ctx.nest, OtherAnc);
    ChildrenNulFree(n.children, other, ctx.header, opts, 0);
    var inner := RenderChildren(n.children, other, ctx.header, opts, 0);
    match n
    case StrongEmphasis(_) => NoNul3("*", inner, "*");
    case Emphasis(_) => NoNul3("_", inner, "_");
    case Strikethrough(_) => NoNul3("-", inner, "-");
    case BlockQuote(_) => NoNul3("{quote}\n", inner, "{quote}\n\n");
  }

  /** Paragraphs, lists and tables: the children and a trailing newline or blank line. */
  lemma TrailedNulFree(n: Node, ctx: Ctx, opts: Options)
    requires NulFree(n) && NulFreeOpts(opts) && (n.Paragraph? || n.ListBlock? || n.TableBlock?)
    ensures NoChar(Render(n, ctx, opts), NUL)
    decreases n, 1
  {
    var nest := if n.ListBlock? then Enter(ctx.nest, ListAnc(n.kind)) else Enter(ctx.nest, OtherAnc);
    ChildrenNulFree(n.children, nest, ctx.header, opts, 0);
    var inner := RenderChildren(n.children, nest, ctx.header, opts, 0);
    match n
    case Paragraph(_) => NoCharAppend(inner, if ctx.nest.parent == ItemParent then "" else "\n\n", NUL);
    case ListBlock(_, _) => NoCharAppend(inner, if ctx.nest.parent == ItemParent then "" else "\n", NUL);
    case TableBlock(_) => NoCharAppend(inner, "\n", NUL);
  }

  /** The document, text groups and table sections: the children alone. */
  lemma GroupNulFree(n: Node, ctx: Ctx, opts: Options)
    requires NulFree(n) && NulFreeOpts(opts) && (n.Document? || n.TextBase? || n.TableHead? || n.TableBody?)
    ensures NoChar(Render(n, ctx, opts), NUL)
    decreases n, 1
  {
    ChildrenNulFree(n.children, Enter(ctx.nest, OtherAnc), n.TableHead? || ctx.header, opts, 0);
  }

  /** Siblings render without NUL when each does. */
  lemma {:induction false} ChildrenNulFree(cs: seq<Node>, nest: Nesting, header: bool, opts: Options, i: nat)
    requires i <= |cs| && AllNulFree(cs) && NulFreeOpts(opts)
    ensures NoChar(RenderChildren(cs, nest, header, opts, i), NUL)
    decreases cs, |cs| - i
  {
    if i < |cs| {
      RenderNulFree(cs[i], ChildCtx(cs, i, nest, header), opts);
      ChildrenNulFree(cs, nest, header, opts, i + 1);
      NoCharAppend(Render(cs[i], ChildCtx(cs, i, nest, header), opts), RenderChildren(cs, nest, header, opts, i + 1), NUL);
    }
  }

  /** The content of a list item, with its newlines before nested lists, renders without NUL. */
  lemma {:induction false} ItemContentNulFree(cs: seq<Node>, nest: Nesting, header: bool, opts: Options, i: nat)
    requires i <= |cs| && AllNulFree(cs) && NulFreeOpts(opts)
    ensures NoChar(ItemContent(cs, nest, header, opts, i), NUL)
    decreases cs, |cs| - i
  {
    if i < |cs| {
      RenderNulFree(cs[i], ChildCtx(cs, i, nest, header), opts);
      ItemContentNulFree(cs, nest, header, opts, i + 1);
      NoNul3(if cs[i].ListBlock? then "\n" else "", Render(cs[i], ChildCtx(cs, i, nest, header), opts),
             ItemContent(cs, nest, header, opts, i + 1));
    }
  }

  // ---------------------------------------------------------------------
  // The link-text renderer
  // ---------------------------------------------------------------------

  /** The link-text walk emits NUL only through inline code. */
  lemma {:induction false} CollectOneNulFree(n: Node)
    requires NulFree(n)
    ensures NoChar(CollectOne(n), NUL)
    decreases n, 1
  {
    match n
    case StrongEmphasis(cs) => CollectNulFree(cs, 0); NoNul3("*", CollectInline(cs, 0), "*");
    case Emphasis(cs) => CollectNulFree(cs, 0); NoNul3("_", CollectInline(cs, 0), "_");
    case Strikethrough(cs) => CollectNulFree(cs, 0); NoNul3("-", CollectInline(cs, 0), "-");
    case Text(_) =>
    case SoftLineBreak =>
    case HardLineBreak =>
    case HtmlEntity(_) =>
    case HtmlInline(_) =>
    case FencedCodeBlock(_, _) =>
    case IndentedCodeBlock(_) =>
    case ThematicBreak =>
    case HtmlBlock(_) =>
    case Code(_) => assert false;
    case _ => CollectNulFree(n.children, 0);
  }

  lemma {:induction false} CollectNulFree(cs: seq<Node>, i: nat)
    requires i <= |cs| && AllNulFree(cs)
    ensures NoChar(CollectInline(cs, i), NUL)
    decreases cs, |cs| - i
  {
    if i < |cs| {
      CollectOneNulFree(cs[i]);
      CollectNulFree(cs, i + 1);
      NoCharAppend(CollectOne(cs[i]), CollectInline(cs, i + 1), NUL);
    }
  }

  // ---------------------------------------------------------------------
  // Pieces
  // ---------------------------------------------------------------------

  lemma NoNul3(a: string, b: string, c: string)
    requires NoChar(a, NUL) && NoChar(b, NUL) && NoChar(c, NUL)
    ensures NoChar(a + b + c, NUL)
  {
    NoCharAppend(a, b, NUL);
    NoCharAppend(a + b, c, NUL);
  }

  lemma LinkNoNul(url: string, text: string)
    requires NoChar(url, NUL) && NoChar(text, NUL)
    ensures NoChar(LinkMarkup(url, text), NUL)
  {
    NoNul3("[", url, "]");
    NoNul3("[", text, "|");
    NoNul3("[" + text + "|", url, "]");
  }

  lemma ImageNoNul(url: string, alt: string)
    requires NoChar(url, NUL) && NoChar(alt, NUL)
    ensures NoChar(ImageMarkup(url, alt), NUL)
  {
    NoNul3("!", url, "!");
    NoNul3("!", url, "|alt=");
    NoNul3("!" + url + "|alt=", alt, "!");
  }

  lemma ThemeNoNul(opts: Options)
    requires NulFreeOpts(opts)
    ensures NoChar(Join(ThemeParams(opts), "|"), NUL)
  {
    if HasTheme(opts) {
      NoCharAppend("theme=", opts.theme.value, NUL);
    }
  }
}
