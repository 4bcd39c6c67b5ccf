/**
  Whole conversions: the rendering of a small document followed by the
  post-processing as written. Text with no brace, no NUL, no line break and
  no `**` passes the post-processing untouched except for the final strip,
  so the inline wrappers, the headings and the thematic break come out
  exactly as the renderer emits them, less the blank line after the block.
*/
module ConversionFacts {
  import opened Wrappers
  import opened Strings
  import opened Escape
  import opened Tree
  import opened ListPrefix
  import opened Renderer
  import opened Protect
  import opened Rewrite
  import opened PostProcess
  import opened Converter
  import opened RenderNul

  /** Text the post-processing leaves alone: no block can open, no marker, no newline, no `**`. */
  predicate Inert(x: string) {
    && NoChar(x, '{') && NoChar(x, NUL) && NoChar(x, '\n')
    && forall k :: 0 <= k < |x| ==> !PairAt(x, k)
  }

  /** A line of output: inert, and not starting or ending with white space. */
  predicate Line(x: string) {
    Inert(x) && |x| > 0 && !IsWhitespace(x[0]) && !IsWhitespace(x[|x| - 1])
  }

  // ---------------------------------------------------------------------
  // The post-processing of plain text
  // ---------------------------------------------------------------------

  /** Without a `{`, no code block starts anywhere. */
  lemma {:induction false} NoBraceNoBlock(s: string, from: nat)
    requires from <= |s| && NoChar(s, '{')
    ensures FindBlock(s, from).None?
    decreases |s| - from
  {
    if from + 6 <= |s| {
      assert s[from..from + 5][0] == s[from] != '{';
    }
    assert MatchAt(s, from).None?;
    if from < |s| {
      NoBraceNoBlock(s, from + 1);
    }
  }

  /** With no saved block, the positional restore copies every NUL frame whole. */
  lemma {:induction false} RestoreScanNone(s: string)
    ensures RestoreScan(s, []) == s
    decreases |s|
  {
    if |s| > 0 {
      if s[0] != NUL {
        RestoreScanNone(s[1..]);
        assert s == [s[0]] + s[1..];
      } else if FirstFrom(s, NUL, 1).Some? {
        var j := FirstFrom(s, NUL, 1).value;
        RestoreScanNone(s[j + 1..]);
        RestoreScanNoneFramed(s, j);
      }
    }
  }

  /** A NUL-framed body names no block of an empty list, so it is copied up to its closing NUL. */
  lemma RestoreScanNoneFramed(s: string, j: nat)
    requires |s| > 0 && s[0] == NUL && FirstFrom(s, NUL, 1) == Some(j)
    requires RestoreScan(s[j + 1..], []) == s[j + 1..]
    ensures RestoreScan(s, []) == s
  {
    assert BodyIndex(s[1..j], 0, 0).None?;
    assert s == s[..j + 1] + s[j + 1..];
  }

  /**
    Text with no `{`, no `**` and no three newlines in a row holds no block,
    and steps 1 to 4 leave it unchanged, in both pipelines: only the marker
    restore, the strip and the final newline act on it.
  */
  lemma PostProcessNoBlocks(raw: string)
    requires NoChar(raw, '{') && NoTriple(raw)
    requires forall k :: 0 <= k < |raw| ==> !PairAt(raw, k)
    ensures PostProcess.PostProcess(raw) == Finalize(InlineRestore(raw))
    ensures PostProcessPositional(raw) == Finalize(InlineScan(raw))
  {
    NoBraceNoBlock(raw, 0);
    assert raw[0..] == raw;
    assert Scan(raw, 0) == ([raw], []);
    assert ProtectBlocks(raw) == (raw, []);
    BoldFixNoPair(raw, 0);
    CollapseKeepsClean(raw, 0);
    assert Middle(raw) == raw;
    assert RestoreBlocks(raw, []) == raw;
    RestoreScanNone(raw);
  }

  /**
    Text with no `{`, no NUL, no `**` and no three newlines in a row comes
    through steps 1 to 5 unchanged: the post-processing only strips it and
    ends it with a newline.
  */
  lemma PostProcessPlain(raw: string)
    requires NoChar(raw, '{') && NoChar(raw, NUL) && NoTriple(raw)
    requires forall k :: 0 <= k < |raw| ==> !PairAt(raw, k)
    ensures PostProcess.PostProcess(raw) == Finalize(raw)
  {
    PostProcessNoBlocks(raw);
  }

  /**
    Inline code spans between NUL-free text, in text that holds no block, no
    `**` and no three newlines in a row: the positional marker restore gives
    every span as `{{code}}`, however many there are.
  */
  lemma PostProcessPositionalSpans(gaps: seq<string>, codes: seq<string>)
    requires |gaps| == |codes| + 1 && AllNoNul(gaps) && AllNoNul(codes)
    requires var raw := WithSpans(gaps, codes);
             NoChar(raw, '{') && NoTriple(raw) && forall k :: 0 <= k < |raw| ==> !PairAt(raw, k)
    ensures PostProcessPositional(WithSpans(gaps, codes)) == Finalize(WithBraces(gaps, codes))
  {
    PostProcessNoBlocks(WithSpans(gaps, codes));
    InlineScanSpans(gaps, codes);
  }

  /** An inert line followed by the blank line the renderer puts after a block stays inert. */
  lemma BlockLinePlain(x: string)
    requires Inert(x)
    ensures var raw := x + "\n\n";
            NoChar(raw, '{') && NoChar(raw, NUL) && NoTriple(raw)
            && forall k :: 0 <= k < |raw| ==> !PairAt(raw, k)
  {
    var raw := x + "\n\n";
    NoCharAppend(x, "\n\n", '{');
    NoCharAppend(x, "\n\n", NUL);
    forall i | 0 <= i < |raw|
      ensures !TripleAt(raw, i)
    {
      if i < |x| {
        assert raw[i] == x[i];
      }
    }
    forall k | 0 <= k < |raw|
      ensures !PairAt(raw, k)
    {
      if k + 1 < |x| {
        assert raw[k] == x[k] && raw[k + 1] == x[k + 1];
        assert !PairAt(x, k);
      } else if k + 1 < |raw| {
        assert raw[k + 1] == '\n';
      }
    }
  }

  /** The strip drops the blank line after a block and nothing of the line itself. */
  lemma StripBlockLine(x: string)
    requires |x| > 0 && !IsWhitespace(x[0]) && !IsWhitespace(x[|x| - 1])
    ensures Strip(x + "\n\n") == x
  {
    var s := x + "\n\n";
    var y := x + "\n";
    assert Strip(x) == x;
    assert y[..|x|] == x && y[0] == x[0] && y[|y| - 1] == '\n';
    assert Strip(y) == x;
    assert s[..|x| + 1] == y && s[0] == x[0] && s[|s| - 1] == '\n';
  }

  /**
    A document that renders to one line and a blank line converts to that
    line and a newline.
  */
  lemma ConvertLine(markdown: string, doc: Node, opts: Options, x: string)
    requires !IsBlank(markdown) && Line(x)
    requires Render(doc, Start, opts) == x + "\n\n"
    ensures Convert(Some(markdown), doc, opts) == x + "\n"
  {
    BlockLinePlain(x);
    PostProcessPlain(x + "\n\n");
    StripBlockLine(x);
  }

  // ---------------------------------------------------------------------
  // Rendering one block at the document root
  // ---------------------------------------------------------------------

  /** The only child renders in the last-sibling context. */
  lemma OnlyChild(n: Node, nest: Nesting, header: bool, opts: Options)
    ensures RenderChildren([n], nest, header, opts, 0) == Render(n, Ctx(nest, true, header), opts)
  {
    assert RenderChildren([n], nest, header, opts, 1) == "";
  }

  /** The nesting the root's children see. */
  const Top := Enter(Root, OtherAnc)

  /** A document holding one block renders as that block outside any list. */
  lemma DocumentOfOne(b: Node, opts: Options)
    ensures Render(Document([b]), Start, opts) == Render(b, Ctx(Top, true, false), opts)
  {
    OnlyChild(b, Top, false, opts);
  }

  /** Text without braces renders as itself. */
  lemma {:induction false} TextPlain(t: string)
    requires NoChar(t, '{') && NoChar(t, '}')
    ensures TextEach(t) == t
    decreases |t|
  {
    if |t| > 0 {
      TextPlain(t[1..]);
      assert t == [t[0]] + t[1..];
    }
  }

  /** A paragraph holding a single text node, rendered outside any list. */
  lemma ParagraphOfText(w: Node, opts: Options)
    ensures Render(Document([Paragraph([w])]), Start, opts)
         == Render(w, Ctx(Top, true, false), opts) + "\n\n"
  {
    DocumentOfOne(Paragraph([w]), opts);
    OnlyChild(w, Top, false, opts);
  }

  /** An inline wrapper around a single brace-free text node. */
  lemma WrappedText(w: Node, t: string, opts: Options)
    requires w == StrongEmphasis([Text(t)]) || w == Emphasis([Text(t)]) || w == Strikethrough([Text(t)])
    requires NoChar(t, '{') && NoChar(t, '}')
    ensures var m := if w.StrongEmphasis? then "*" else if w.Emphasis? then "_" else "-";
            Render(w, Ctx(Top, true, false), opts) == m + t + m
  {
    OnlyChild(Text(t), Top, false, opts);
    TextPlain(t);
  }

  // ---------------------------------------------------------------------
  // The inline wrappers end to end
  // ---------------------------------------------------------------------

  /** Wrapping inert text in a mark other than `*` keeps it inert and a line. */
  lemma MarkedLine(m: char, t: string)
    requires Inert(t) && m != '*' && m != '{' && m != NUL && m != '\n' && !IsWhitespace(m)
    ensures Line([m] + t + [m])
  {
    var x := [m] + t + [m];
    NoCharAppend([m], t, '{');
    NoCharAppend([m] + t, [m], '{');
    NoCharAppend([m], t, NUL);
    NoCharAppend([m] + t, [m], NUL);
    NoCharAppend([m], t, '\n');
    NoCharAppend([m] + t, [m], '\n');
    forall k | 0 <= k < |x|
      ensures !PairAt(x, k)
    {
      if 0 < k && k + 1 < |x| - 1 {
        assert x[k] == t[k - 1] && x[k + 1] == t[k];
        assert !PairAt(t, k - 1);
      }
    }
  }

  /** Star-free text between two stars is a line: no `**` can form. */
  lemma StarredLine(t: string)
    requires Inert(t) && NoChar(t, '*') && |t| > 0
    ensures Line("*" + t + "*")
  {
    var x := "*" + t + "*";
    NoCharAppend("*", t, '{');
    NoCharAppend("*" + t, "*", '{');
    NoCharAppend("*", t, NUL);
    NoCharAppend("*" + t, "*", NUL);
    NoCharAppend("*", t, '\n');
    NoCharAppend("*" + t, "*", '\n');
    forall k | 0 <= k < |x|
      ensures !PairAt(x, k)
    {
      if k == 0 {
        assert x[1] == t[0];
      } else if k < |x| - 1 {
        assert x[k] == t[k - 1];
      }
    }
  }

  /**
    Strong emphasis converts to single stars: `**t**` in Markdown becomes
    `*t*`, and the bold fix has no `**` left to touch.
  */
  lemma BoldConverts(markdown: string, t: string, opts: Options)
    requires !IsBlank(markdown) && Inert(t) && NoChar(t, '}') && NoChar(t, '*') && |t| > 0
    ensures Convert(Some(markdown), Document([Paragraph([StrongEmphasis([Text(t)])])]), opts) == "*" + t + "*\n"
  {
    var w := StrongEmphasis([Text(t)]);
    ParagraphOfText(w, opts);
    WrappedText(w, t, opts);
    StarredLine(t);
    ConvertLine(markdown, Document([Paragraph([w])]), opts, "*" + t + "*");
  }

  /** Emphasis converts to underscores. */
  lemma ItalicConverts(markdown: string, t: string, opts: Options)
    requires !IsBlank(markdown) && Inert(t) && NoChar(t, '}')
    ensures Convert(Some(markdown), Document([Paragraph([Emphasis([Text(t)])])]), opts) == "_" + t + "_\n"
  {
    var w := Emphasis([Text(t)]);
    ParagraphOfText(w, opts);
    WrappedText(w, t, opts);
    MarkedLine('_', t);
    assert [ '_' ] + t + ['_'] == "_" + t + "_";
    ConvertLine(markdown, Document([Paragraph([w])]), opts, "_" + t + "_");
  }

  /** Strikethrough converts to hyphens. */
  lemma StrikeConverts(markdown: string, t: string, opts: Options)
    requires !IsBlank(markdown) && Inert(t) && NoChar(t, '}')
    ensures Convert(Some(markdown), Document([Paragraph([Strikethrough([Text(t)])])]), opts) == "-" + t + "-\n"
  {
    var w := Strikethrough([Text(t)]);
    ParagraphOfText(w, opts);
    WrappedText(w, t, opts);
    MarkedLine('-', t);
    assert ['-'] + t + ['-'] == "-" + t + "-";
    ConvertLine(markdown, Document([Paragraph([w])]), opts, "-" + t + "-");
  }

  // ---------------------------------------------------------------------
  // Headings and the thematic break end to end
  // ---------------------------------------------------------------------

  /** A heading of text that ends in a visible character converts to `h<level>. ` and the text. */
  lemma HeadingConverts(markdown: string, level: nat, t: string, opts: Options)
    requires !IsBlank(markdown) && Inert(t) && NoChar(t, '}')
    requires |t| > 0 && !IsWhitespace(t[|t| - 1])
    ensures Convert(Some(markdown), Document([Heading(level, [Text(t)])]), opts)
         == "h" + Decimal(level) + ". " + t + "\n"
  {
    var h := Heading(level, [Text(t)]);
    DocumentOfOne(h, opts);
    OnlyChild(Text(t), Top, false, opts);
    TextPlain(t);
    var x := "h" + Decimal(level) + ". " + t;
    assert Render(Document([h]), Start, opts) == x + "\n\n";
    HeadingLine(Decimal(level), t);
    ConvertLine(markdown, Document([h]), opts, x);
  }

  /** `h`, digits, a dot, a space and inert text form a line. */
  lemma HeadingLine(d: string, t: string)
    requires AllDigits(d) && Inert(t) && |t| > 0 && !IsWhitespace(t[|t| - 1])
    ensures Line("h" + d + ". " + t)
  {
    var p := "h" + d + ". ";
    var x := p + t;
    assert Inert(p) by {
      assert forall i :: 0 <= i < |d| ==> '0' <= d[i] <= '9';
      assert forall i :: 1 <= i < |p| - 2 ==> p[i] == d[i - 1];
    }
    NoCharAppend(p, t, '{');
    NoCharAppend(p, t, NUL);
    NoCharAppend(p, t, '\n');
    forall k | 0 <= k < |x|
      ensures !PairAt(x, k)
    {
      if k + 1 < |p| {
        assert x[k] == p[k] && x[k + 1] == p[k + 1];
        assert !PairAt(p, k);
      } else if k + 1 == |p| {
        assert x[k] == ' ';
      } else if k + 1 < |x| {
        assert x[k] == t[k - |p|] && x[k + 1] == t[k + 1 - |p|];
        assert !PairAt(t, k - |p|);
      }
    }
    assert x[|x| - 1] == t[|t| - 1];
  }

  /** A thematic break converts to four hyphens. */
  lemma ThematicBreakConverts(markdown: string, opts: Options)
    requires !IsBlank(markdown)
    ensures Convert(Some(markdown), Document([ThematicBreak]), opts) == "----\n"
  {
    DocumentOfOne(ThematicBreak, opts);
    assert Line("----");
    ConvertLine(markdown, Document([ThematicBreak]), opts, "----");
  }

  // ---------------------------------------------------------------------
  // The converter's own examples
  // ---------------------------------------------------------------------

  /** `**bold text**` converts to `*bold text*`. */
  lemma BoldExample(markdown: string, t: string)
    requires markdown == "**bold text**" && t == "bold text"
    ensures Convert(Some(markdown), Document([Paragraph([StrongEmphasis([Text(t)])])]), Defaults)
         == "*" + t + "*\n"
  {
    NotBlank(markdown, 2);
    PlainWord(t);
    BoldConverts(markdown, t, Defaults);
  }

  /** `*italic text*` converts to `_italic text_`. */
  lemma ItalicExample(markdown: string, t: string)
    requires markdown == "*italic text*" && t == "italic text"
    ensures Convert(Some(markdown), Document([Paragraph([Emphasis([Text(t)])])]), Defaults)
         == "_" + t + "_\n"
  {
    NotBlank(markdown, 1);
    PlainWord(t);
    ItalicConverts(markdown, t, Defaults);
  }

  /** `~~strikethrough~~` converts to `-strikethrough-`. */
  lemma StrikeExample(markdown: string, t: string)
    requires markdown == "~~strikethrough~~" && t == "strikethrough"
    ensures Convert(Some(markdown), Document([Paragraph([Strikethrough([Text(t)])])]), Defaults)
         == "-" + t + "-\n"
  {
    NotBlank(markdown, 0);
    PlainWord(t);
    StrikeConverts(markdown, t, Defaults);
  }

  /**
    `# H1` to `###### H6` convert to `h1. H1` to `h6. H6`: a heading of
    level 1 to 6 whose text is `H` and the level's digit.
  */
  lemma HeadingExample(markdown: string, level: nat, t: string)
    requires 1 <= level <= 6 && t == "H" + [Digit(level)]
    requires markdown == Repeat('#', level) + " " + t
    ensures Convert(Some(markdown), Document([Heading(level, [Text(t)])]), Defaults)
         == "h" + [Digit(level)] + ". " + t + "\n"
  {
    assert markdown[0] == '#';
    NotBlank(markdown, 0);
    assert Inert(t) && NoChar(t, '}') && !IsWhitespace(t[|t| - 1]);
    HeadingConverts(markdown, level, t, Defaults);
    assert Decimal(level) == [Digit(level)];
  }

  function Repeat(c: char, n: nat): (r: string)
    ensures |r| == n && forall i :: 0 <= i < n ==> r[i] == c
  {
    if n == 0 then "" else [c] + Repeat(c, n - 1)
  }

  /** `---` converts to `----`. */
  lemma ThematicBreakExample(markdown: string)
    requires markdown == "---"
    ensures Convert(Some(markdown), Document([ThematicBreak]), Defaults) == "----\n"
  {
    NotBlank(markdown, 0);
    ThematicBreakConverts(markdown, Defaults);
  }

  lemma NotBlank(s: string, i: nat)
    requires i < |s| && !IsWhitespace(s[i])
    ensures !IsBlank(s)
  {
  }

  /** Letters and spaces are inert and brace- and star-free. */
  lemma PlainWord(t: string)
    requires forall i :: 0 <= i < |t| ==> t[i] == ' ' || 'a' <= t[i] <= 'z'
    ensures Inert(t) && NoChar(t, '}') && NoChar(t, '*')
  {
  }

  // ---------------------------------------------------------------------
  // Two inline code spans
  // ---------------------------------------------------------------------

  /** The children of the paragraph of `` `a`CS`b` ``: a code span, the text `CS`, a code span. */
  const TwoSpansInline := [Code("a"), Text("CS"), Code("b")]

  /** Code, plain text and code render as the two spans with the text between them. */
  lemma TwoSpansChildren(cs: seq<Node>, nest: Nesting, header: bool, opts: Options, a: string, t: string, b: string)
    requires cs == [Code(a), Text(t), Code(b)] && TextEach(t) == t
    ensures RenderChildren(cs, nest, header, opts, 0) == CodeSpan(a) + (t + (CodeSpan(b) + ""))
  {
    ChildStep(cs, nest, header, opts, 2, CodeSpan(b));
    ChildStep(cs, nest, header, opts, 1, t);
    ChildStep(cs, nest, header, opts, 0, CodeSpan(a));
  }

  /** One child of a sequence: its rendering, then the rest. */
  lemma ChildStep(cs: seq<Node>, nest: Nesting, header: bool, opts: Options, i: nat, r: string)
    requires i < |cs| && (cs[i].Code? || cs[i].Text?)
    requires r == (if cs[i].Code? then CodeSpan(cs[i].text) else TextEach(cs[i].chars))
    ensures RenderChildren(cs, nest, header, opts, i) == r + RenderChildren(cs, nest, header, opts, i + 1)
  {
    InlineLeaf(cs[i], ChildCtx(cs, i, nest, header), opts);
  }

  /** Inline code and text render the same in every context. */
  lemma InlineLeaf(n: Node, ctx: Ctx, opts: Options)
    requires n.Code? || n.Text?
    ensures Render(n, ctx, opts) == if n.Code? then CodeSpan(n.text) else TextEach(n.chars)
  {
  }

  /** A paragraph at the document root: its children, then a blank line. */
  lemma RootParagraph(cs: seq<Node>, opts: Options)
    ensures Render(Document([Paragraph(cs)]), Start, opts)
         == RenderChildren(cs, Enter(Top, OtherAnc), false, opts, 0) + "\n\n"
  {
    DocumentOfOne(Paragraph(cs), opts);
  }

  /** The document renders as the two spans with `CS` between and the blank line after the paragraph. */
  lemma TwoSpansRender(doc: Node, opts: Options)
    requires doc == Document([Paragraph(TwoSpansInline)])
    ensures Render(doc, Start, opts) == WithSpans(["", "CS", "\n\n"], ["a", "b"])
  {
    RootParagraph(TwoSpansInline, opts);
    TextPlain("CS");
    TwoSpansChildren(TwoSpansInline, Enter(Top, OtherAnc), false, opts, "a", "CS", "b");
    TwoSpansUnfold(["", "CS", "\n\n"], ["a", "b"]);
  }

  lemma TwoSpansUnfold(gaps: seq<string>, codes: seq<string>)
    requires gaps == ["", "CS", "\n\n"] && codes == ["a", "b"]
    ensures WithSpans(gaps, codes) == CodeSpan("a") + ("CS" + (CodeSpan("b") + "")) + "\n\n"
  {
    assert gaps[1..] == ["CS", "\n\n"] && codes[1..] == ["b"] && gaps[2..] == ["\n\n"] && codes[2..] == [];
    assert WithSpans(gaps[2..], codes[2..]) == "\n\n";
    assert WithSpans(gaps[1..], codes[1..]) == "CS" + CodeSpan("b") + "\n\n";
  }

  /** Two spans rendered, with the blank line after them, pass steps 1 to 4. */
  lemma TwoSpansPlain(gaps: seq<string>, codes: seq<string>, raw: string)
    requires gaps == ["", "CS", "\n\n"] && codes == ["a", "b"] && raw == WithSpans(gaps, codes)
    ensures NoChar(raw, '{') && NoTriple(raw) && forall k :: 0 <= k < |raw| ==> !PairAt(raw, k)
  {
    TwoSpansText(gaps, codes, "\n\n");
    var p := TwoSpansRaw("");
    TwoSpansRawSplit("\n\n");
    TwoSpansRawBare(p);
    BlankLineAfter(p, "\n\n");
  }

  lemma TwoSpansRawSplit(y: string)
    ensures TwoSpansRaw(y) == TwoSpansRaw("") + y
  {
  }

  /** The rendered spans hold no `*`, no `{` and no newline. */
  lemma TwoSpansRawBare(p: string)
    requires p == TwoSpansRaw("")
    ensures NoChar(p, '*') && NoChar(p, '{') && NoChar(p, '\n')
  {
  }

  /** Text with no `*`, `{` or newline, then one blank line, passes steps 1 to 4 untouched. */
  lemma BlankLineAfter(p: string, e: string)
    requires NoChar(p, '*') && NoChar(p, '{') && NoChar(p, '\n') && e == "\n\n"
    ensures NoChar(p + e, '{') && NoTriple(p + e) && forall k :: 0 <= k < |p + e| ==> !PairAt(p + e, k)
  {
    var s := p + e;
    NoCharAppend(p, e, '{');
    NoCharAppend(p, e, '*');
    forall i | 0 <= i < |s|
      ensures !TripleAt(s, i)
    {
      if i < |p| {
        assert s[i] == p[i];
      }
    }
    forall k | 0 <= k < |s|
      ensures !PairAt(s, k)
    {
      assert s[k] != '*';
    }
  }

  /** Both post-processings of the two rendered spans and the blank line after them. */
  lemma TwoSpansPost(gaps: seq<string>, codes: seq<string>, raw: string, x: string, z: string)
    requires gaps == ["", "CS", "\n\n"] && codes == ["a", "b"] && raw == WithSpans(gaps, codes)
    requires x == "{{a\0CE{{CS\0b}}" && z == "{{a}}CS{{b}}"
    ensures PostProcess.PostProcess(raw) == x + "\n"
    ensures PostProcessPositional(raw) == z + "\n"
  {
    TwoSpansPlain(gaps, codes, raw);
    PostProcessNoBlocks(raw);
    TwoSpansRestored(gaps, codes, raw, x, z);
    StripTwoSpans(x, z);
  }

  /** Both marker restores on the two rendered spans. */
  lemma TwoSpansRestored(gaps: seq<string>, codes: seq<string>, raw: string, x: string, z: string)
    requires gaps == ["", "CS", "\n\n"] && codes == ["a", "b"] && raw == WithSpans(gaps, codes)
    requires x == "{{a\0CE{{CS\0b}}" && z == "{{a}}CS{{b}}"
    ensures InlineRestore(raw) == x + "\n\n"
    ensures InlineScan(raw) == z + "\n\n"
  {
    InlineRestoreTwoSpans(gaps, codes, "\n\n");
    TwoSpansNulFree(gaps, codes);
    InlineScanSpans(gaps, codes);
  }

  lemma TwoSpansLines(x: string, z: string)
    requires x == "{{a\0CE{{CS\0b}}" && z == "{{a}}CS{{b}}"
    ensures x + "\n" == "{{a\0CE{{CS\0b}}\n" && z + "\n" == "{{a}}CS{{b}}\n"
  {
  }

  lemma TwoSpansNulFree(gaps: seq<string>, codes: seq<string>)
    requires gaps == ["", "CS", "\n\n"] && codes == ["a", "b"]
    ensures AllNoNul(gaps) && AllNoNul(codes)
  {
  }

  lemma StripTwoSpans(x: string, y: string)
    requires x == "{{a\0CE{{CS\0b}}" && y == "{{a}}CS{{b}}"
    ensures Finalize(x + "\n\n") == x + "\n" && Finalize(y + "\n\n") == y + "\n"
  {
    StripBlockLine(x);
    StripBlockLine(y);
  }

  /**
    `` `a`CS`b` `` converts, as written, to `{{a`, NUL, `CE{{CS`, NUL, `b}}`:
    the inline-code restore loses the first closing brace pair and leaves
    two NULs.
  */
  lemma TwoSpansAsWritten(markdown: string, doc: Node)
    requires markdown == "`a`CS`b`" && doc == Document([Paragraph(TwoSpansInline)])
    ensures Convert(Some(markdown), doc, Defaults) == "{{a\0CE{{CS\0b}}\n"
  {
    NotBlank(markdown, 0);
    TwoSpansRender(doc, Defaults);
    TwoSpansPost(["", "CS", "\n\n"], ["a", "b"], Render(doc, Start, Defaults), "{{a\0CE{{CS\0b}}", "{{a}}CS{{b}}");
    TwoSpansLines("{{a\0CE{{CS\0b}}", "{{a}}CS{{b}}");
  }

  /** With the positional marker restore the same input converts to `{{a}}CS{{b}}`. */
  lemma TwoSpansPositional(markdown: string, doc: Node)
    requires markdown == "`a`CS`b`" && doc == Document([Paragraph(TwoSpansInline)])
    ensures ConvertPositional(Some(markdown), doc, Defaults) == "{{a}}CS{{b}}\n"
  {
    NotBlank(markdown, 0);
    TwoSpansRender(doc, Defaults);
    TwoSpansPost(["", "CS", "\n\n"], ["a", "b"], Render(doc, Start, Defaults), "{{a\0CE{{CS\0b}}", "{{a}}CS{{b}}");
    TwoSpansLines("{{a\0CE{{CS\0b}}", "{{a}}CS{{b}}");
  }

  /**
    A document without inline code, whose text holds no NUL, converts with
    every `{code}` block kept in place by the positional restore.
  */
  lemma ConvertNulFreeKeepsBlocks(markdown: string, doc: Node, opts: Options)
    requires !IsBlank(markdown) && NulFree(doc) && NulFreeOpts(opts)
    ensures var (lits, blocks) := Scan(Render(doc, Start, opts), 0);
            ConvertPositional(Some(markdown), doc, opts) == Finalize(Splice(Rewritten(lits), blocks))
            && SameSqueeze(Rewritten(lits), lits)
  {
    RenderNulFree(doc, Start, opts);
    ConvertPositionalKeepsBlocks(markdown, doc, opts);
  }

  /** The same for the post-processing as written, where the pieces between blocks are clean. */
  lemma ConvertNulFreeAsWritten(markdown: string, doc: Node, opts: Options)
    requires !IsBlank(markdown) && NulFree(doc) && NulFreeOpts(opts)
    requires SqueezedGapsClean(Scan(Render(doc, Start, opts), 0).0)
    ensures Convert(Some(markdown), doc, opts) == ConvertPositional(Some(markdown), doc, opts)
  {
    RenderNulFree(doc, Start, opts);
    AsWrittenAgrees(Render(doc, Start, opts));
  }
}
