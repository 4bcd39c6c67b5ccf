/**
  The node renderer: one case per registered node kind, emitting Confluence
  wiki markup. What the source reads from parent and sibling references is
  carried in `Ctx`: the list nesting, whether the node is the last of its
  siblings, and the table-header flag, which is true inside a table head.
*/
module Renderer {
  import opened Wrappers
  import opened Strings
  import opened Escape
  import opened Tree
  import opened ListPrefix

  /** Reserved markers around inline code; the post-processor turns them into `{{` and `}}`. */
  const CodeSpanStart: string := "\0CS\0"
  const CodeSpanEnd: string := "\0CE\0"

  /** The conversion options: an optional code-block theme; an empty theme counts as none. */
  datatype Options = Options(theme: Option<string>)

  datatype Ctx = Ctx(nest: Nesting, lastCell: bool, header: bool)

  /** The context of a top-level document: no list around it, no table header. */
  const Start := Ctx(Root, true, false)

  predicate HasTheme(opts: Options) {
    opts.theme.Some? && opts.theme.value != ""
  }

  /** The theme parameter: present exactly when a non-empty theme is set, and then `theme=` and the theme. */
  function ThemeParams(opts: Options): (ps: seq<string>)
    ensures |ps| <= 1
    ensures |ps| == 1 <==> HasTheme(opts)
    ensures |ps| == 1 ==> ps[0] == "theme=" + opts.theme.value
  {
    if HasTheme(opts) then ["theme=" + opts.theme.value] else []
  }

  /** Inline code: escaped content between the two reserved markers. */
  function CodeSpan(text: string): (r: string)
    ensures r == CodeSpanStart + CodeEach(text) + CodeSpanEnd
    ensures UnescapeCode(r[|CodeSpanStart|..|r| - |CodeSpanEnd|]) == text
  {
    EscapeCodePerChar(text);
    CodeRoundTrip(text);
    var r := CodeSpanStart + EscapeCode(text) + CodeSpanEnd;
    assert r[|CodeSpanStart|..|r| - |CodeSpanEnd|] == EscapeCode(text);
    r
  }

  /** Plain text: every brace gains one backslash, every other character is kept. */
  function PlainText(chars: string): (r: string)
    ensures r == TextEach(chars)
    ensures UnescapeText(r) == chars
    ensures NoChar(chars, NUL) ==> NoChar(r, NUL)
  {
    EscapeTextPerChar(chars);
    TextRoundTrip(chars);
    TextEachNoNul(chars);
    EscapeText(chars)
  }

  /** `[text|url]` when the link text is non-empty and differs from the url, else `[url]`. */
  function LinkMarkup(url: string, text: string): (r: string)
    ensures r == "[" + url + "]" <==> (text == "" || text == url)
    ensures r != "[" + url + "]" ==> r == "[" + text + "|" + url + "]"
  {
    if text != "" && text != url then
      var r := "[" + text + "|" + url + "]";
      assert |r| > |"[" + url + "]"|;
      r
    else "[" + url + "]"
  }

  /** `!url|alt=alt!` when the alt text is non-empty, else `!url!`. */
  function ImageMarkup(url: string, alt: string): (r: string)
    ensures r == "!" + url + "!" <==> alt == ""
    ensures alt != "" ==> r == "!" + url + "|alt=" + alt + "!"
  {
    if alt != "" then
      var r := "!" + url + "|alt=" + alt + "!";
      assert |r| > |"!" + url + "!"|;
      r
    else "!" + url + "!"
  }

  /** Code content with one trailing newline, if present, removed. */
  function DropFinalNewline(content: string): (r: string)
    ensures content == r + (if |content| > 0 && content[|content| - 1] == '\n' then "\n" else "")
  {
    if |content| > 0 && content[|content| - 1] == '\n' then content[..|content| - 1] else content
  }

  /**
    The parameters of a fenced block, in order: the trimmed info string as the
    language (`mermaid`, matched exactly, becomes `text` and adds a title and
    collapse), then the theme.
  */
  function FencedParams(info: string, opts: Options): (ps: seq<string>)
    ensures Trim(info) == "" ==> ps == ThemeParams(opts)
    ensures Trim(info) == "mermaid" ==>
      ps == ["language=text", "title=mermaid", "collapse=true"] + ThemeParams(opts)
    ensures Trim(info) != "" && Trim(info) != "mermaid" ==>
      ps == ["language=" + Trim(info)] + ThemeParams(opts)
  {
    var lang := Trim(info);
    var isMermaid := lang == "mermaid";
    var withLang := if lang != "" then ["language=" + (if isMermaid then "text" else lang)] else [];
    var withMermaid := withLang + (if isMermaid then ["title=mermaid", "collapse=true"] else []);
    assert isMermaid ==> withLang == ["language=text"] by {
      if isMermaid {
        assert |lang| == 7;
        assert "language=" + "text" == "language=text";
      }
    }
    assert isMermaid ==> withMermaid == ["language=text", "title=mermaid", "collapse=true"];
    withMermaid + ThemeParams(opts)
  }

  /** Characters no fixed parameter text holds: not a lower-case letter, `=` or `|`. */
  predicate ParamSafe(c: char) {
    c != '=' && c != '|' && !('a' <= c <= 'z')
  }

  /** The parameters of a fenced block, joined, hold no `c` when the info string and the theme hold none. */
  lemma FencedParamsClean(info: string, opts: Options, c: char)
    requires ParamSafe(c) && NoChar(info, c) && (opts.theme.Some? ==> NoChar(opts.theme.value, c))
    ensures NoChar(Join(FencedParams(info, opts), "|"), c)
  {
    TrimCutsEnds(info);
    var i: nat, j: nat :| CutsEnds(info, Trim(info), i, j, IsTrimmable);
    assert NoChar(Trim(info), c) by {
      forall k | 0 <= k < |Trim(info)| ensures Trim(info)[k] != c {
        assert Trim(info)[k] == info[i + k];
      }
    }
    var ps := FencedParams(info, opts);
    forall k | 0 <= k < |ps|
      ensures NoChar(ps[k], c)
    {
      PrefixedClean(ps[k], info, opts, c);
    }
    JoinClean(ps, "|", c);
  }

  lemma PrefixedClean(p: string, info: string, opts: Options, c: char)
    requires ParamSafe(c) && NoChar(Trim(info), c) && (opts.theme.Some? ==> NoChar(opts.theme.value, c))
    requires p in FencedParams(info, opts)
    ensures NoChar(p, c)
  {
    var lang := Trim(info);
    if p == "language=" + lang {
      NoCharAppend("language=", lang, c);
    } else if HasTheme(opts) && p == "theme=" + opts.theme.value {
      NoCharAppend("theme=", opts.theme.value, c);
    }
  }

  /** `{code[:p1|p2|...]}`, the content less one trailing newline, and the closing `{code}`. */
  function CodeBlock(params: seq<string>, content: string): (r: string)
    ensures NoChar(Join(params, "|"), NUL) && NoChar(content, NUL) ==> NoChar(r, NUL)
  {
    var joined := Join(params, "|");
    var paramStr := if |joined| > 0 then ":" + joined else "";
    "{code" + paramStr + "}\n" + DropFinalNewline(content) + "\n{code}\n\n"
  }

  function DefaultMarker(kind: ItemKind): char {
    match kind
    case OrderedItem => '#'
    case _ => '*'
  }

  function TaskMarker(kind: ItemKind): string {
    match kind
    case TaskItem(done) => if done then "(/) " else "(x) "
    case _ => ""
  }

  /** What follows a table cell: a separator, or the row's closing bar after the last cell. */
  function CellEnd(header: bool, last: bool): string {
    if last then (if header then " ||" else " |")
    else (if header then " || " else " | ")
  }

  /** Renders one node. */
  function Render(n: Node, ctx: Ctx, opts: Options): string
    decreases n, 0
  {
    var other := Enter(ctx.nest, OtherAnc);
    match n
    case Document(cs) => RenderChildren(cs, other, ctx.header, opts, 0)
    case StrongEmphasis(cs) => "*" + RenderChildren(cs, other, ctx.header, opts, 0) + "*"
    case Emphasis(cs) => "_" + RenderChildren(cs, other, ctx.header, opts, 0) + "_"
    case Strikethrough(cs) => "-" + RenderChildren(cs, other, ctx.header, opts, 0) + "-"
    case Code(text) => CodeSpan(text)
    case Link(url, cs) => LinkMarkup(url, CollectInline(cs, 0))
    case AutoLink(text, _) => "[" + text + "]"
    case MailLink(text, _) => "[mailto:" + text + "]"
    case Image(url, alt, _) => ImageMarkup(url, alt)
    case SoftLineBreak => "\n"
    case HardLineBreak => "\n"
    case Text(chars) => PlainText(chars)
    case TextBase(cs) => RenderChildren(cs, other, ctx.header, opts, 0)
    case HtmlEntity(chars) => chars
    case HtmlInline(chars) => chars
    case Heading(level, cs) => "h" + Decimal(level) + ". " + RenderChildren(cs, other, ctx.header, opts, 0) + "\n\n"
    case Paragraph(cs) =>
      RenderChildren(cs, other, ctx.header, opts, 0) + (if ctx.nest.parent == ItemParent then "" else "\n\n")
    case BlockQuote(cs) => "{quote}\n" + RenderChildren(cs, other, ctx.header, opts, 0) + "{quote}\n\n"
    case FencedCodeBlock(info, content) => CodeBlock(FencedParams(info, opts), content)
    case IndentedCodeBlock(content) => CodeBlock(ThemeParams(opts), content)
    case ThematicBreak => "----\n\n"
    case HtmlBlock(chars) => chars
    case ListBlock(kind, cs) =>
      RenderChildren(cs, Enter(ctx.nest, ListAnc(kind)), ctx.header, opts, 0)
      + (if ctx.nest.parent == ItemParent then "" else "\n")
    case ListItem(kind, cs) =>
      ItemPrefix(ctx.nest, DefaultMarker(kind)) + " " + TaskMarker(kind)
      + ItemContent(cs, Enter(ctx.nest, ItemAnc), ctx.header, opts, 0) + "\n"
    case TableBlock(cs) => RenderChildren(cs, other, ctx.header, opts, 0) + "\n"
    case TableHead(cs) => RenderChildren(cs, other, true, opts, 0)
    case TableBody(cs) => RenderChildren(cs, other, ctx.header, opts, 0)
    case TableRow(cs) =>
      (if ctx.header then "|| " else "| ") + RenderChildren(cs, other, ctx.header, opts, 0) + "\n"
    case TableCell(cs) => RenderChildren(cs, other, ctx.header, opts, 0) + CellEnd(ctx.header, ctx.lastCell)
    case TableSeparator(_) => ""
  }

  /** The context of the `i`-th of the siblings `cs`. */
  function ChildCtx(cs: seq<Node>, i: nat, nest: Nesting, header: bool): Ctx {
    Ctx(nest, i + 1 == |cs|, header)
  }

  /** Renders the siblings `cs[i..]` in order. */
  function RenderChildren(cs: seq<Node>, nest: Nesting, header: bool, opts: Options, i: nat): string
    requires i <= |cs|
    decreases cs, |cs| - i
  {
    if i == |cs| then ""
    else Render(cs[i], ChildCtx(cs, i, nest, header), opts) + RenderChildren(cs, nest, header, opts, i + 1)
  }

  /** The children of a list item; a nested list starts on a new line. */
  function ItemContent(cs: seq<Node>, nest: Nesting, header: bool, opts: Options, i: nat): string
    requires i <= |cs|
    decreases cs, |cs| - i
  {
    if i == |cs| then ""
    else
      (if cs[i].ListBlock? then "\n" else "")
      + Render(cs[i], ChildCtx(cs, i, nest, header), opts)
      + ItemContent(cs, nest, header, opts, i + 1)
  }

  /**
    The link-text renderer: a smaller walk over the link's children that knows
    text, inline code, the three emphasis kinds, line breaks and entities, and
    descends into anything else without emitting it.
  */
  function CollectInline(cs: seq<Node>, i: nat): string
    requires i <= |cs|
    decreases cs, |cs| - i
  {
    if i == |cs| then "" else CollectOne(cs[i]) + CollectInline(cs, i + 1)
  }

  function CollectOne(n: Node): string
    decreases n, 0
  {
    match n
    case Text(chars) => PlainText(chars)
    case Code(text) => CodeSpan(text)
    case StrongEmphasis(cs) => "*" + CollectInline(cs, 0) + "*"
    case Emphasis(cs) => "_" + CollectInline(cs, 0) + "_"
    case Strikethrough(cs) => "-" + CollectInline(cs, 0) + "-"
    case SoftLineBreak => "\n"
    case HardLineBreak => "\n"
    case HtmlEntity(chars) => chars
    case Document(cs) => CollectInline(cs, 0)
    case Link(_, cs) => CollectInline(cs, 0)
    case AutoLink(_, cs) => CollectInline(cs, 0)
    case MailLink(_, cs) => CollectInline(cs, 0)
    case Image(_, _, cs) => CollectInline(cs, 0)
    case TextBase(cs) => CollectInline(cs, 0)
    case Heading(_, cs) => CollectInline(cs, 0)
    case Paragraph(cs) => CollectInline(cs, 0)
    case BlockQuote(cs) => CollectInline(cs, 0)
    case ListBlock(_, cs) => CollectInline(cs, 0)
    case ListItem(_, cs) => CollectInline(cs, 0)
    case TableBlock(cs) => CollectInline(cs, 0)
    case TableHead(cs) => CollectInline(cs, 0)
    case TableBody(cs) => CollectInline(cs, 0)
    case TableRow(cs) => CollectInline(cs, 0)
    case TableCell(cs) => CollectInline(cs, 0)
    case TableSeparator(cs) => CollectInline(cs, 0)
    case HtmlInline(_) => ""
    case FencedCodeBlock(_, _) => ""
    case IndentedCodeBlock(_) => ""
    case ThematicBreak => ""
    case HtmlBlock(_) => ""
  }
}
