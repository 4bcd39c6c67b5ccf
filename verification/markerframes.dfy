/**
  Inline-code markers are framed by NUL like the block sentinels. When the
  text between two inline code spans is itself a block placeholder, the NUL
  closing the first span's end marker, the placeholder and the NUL opening
  the next span's start marker read, to step 4 as written, as a sentinel:
  the block is put back twice, and step 5 then meets broken markers. The
  positional restores copy every marker frame whole and give the text back.
*/
module MarkerFrames {
  import opened Strings
  import opened Protect
  import opened ProtectFacts
  import opened Rewrite
  import opened PostProcess
  import opened BlockScan
  import Renderer
  import Escape
  import ConversionFacts

  // ---------------------------------------------------------------------
  // Rendered inline code is marked
  // ---------------------------------------------------------------------

  /** Two marked texts side by side are marked: a marker or a plain character of the first stays one. */
  lemma {:induction false} MarkedAppend(x: string, y: string)
    requires Marked(x) && Marked(y)
    ensures Marked(x + y)
    decreases |x|
  {
    if |x| == 0 {
      assert x + y == y;
    } else if StartsWith(x, Renderer.CodeSpanStart) || StartsWith(x, Renderer.CodeSpanEnd) {
      MarkedAppend(x[4..], y);
      MarkerStep(x, y);
    } else {
      MarkedAppend(x[1..], y);
      PlainStep(x, y);
    }
  }

  lemma MarkerStep(x: string, y: string)
    requires StartsWith(x, Renderer.CodeSpanStart) || StartsWith(x, Renderer.CodeSpanEnd)
    requires Marked(x[4..] + y)
    ensures Marked(x + y)
  {
    var s := x + y;
    assert s[..4] == x[..4];
    assert s[4..] == x[4..] + y;
  }

  lemma PlainStep(x: string, y: string)
    requires |x| > 0 && x[0] != NUL && Marked(x[1..] + y)
    ensures Marked(x + y)
  {
    var s := x + y;
    MarkerHead(s);
    assert s[0] == x[0];
    assert s[1..] == x[1..] + y;
  }

  /** A marker in front of a marked text. */
  lemma MarkerMarked(m: string, w: string)
    requires m == Renderer.CodeSpanStart || m == Renderer.CodeSpanEnd
    requires Marked(w)
    ensures Marked(m + w)
  {
    var s := m + w;
    assert s[..4] == m && s[4..] == w;
  }

  /** One span, code free of NUL, in front of a marked text. */
  lemma SpanMarked(c: string, w: string)
    requires NoChar(c, NUL) && Marked(w)
    ensures Marked(Renderer.CodeSpanStart + (c + (Renderer.CodeSpanEnd + w)))
  {
    MarkerMarked(Renderer.CodeSpanEnd, w);
    NoNulMarked(c);
    MarkedAppend(c, Renderer.CodeSpanEnd + w);
    MarkerMarked(Renderer.CodeSpanStart, c + (Renderer.CodeSpanEnd + w));
  }

  /**
    Rendered inline code spans between NUL-free text are marked, however
    many there are: every NUL in them belongs to a whole marker.
  */
  lemma {:induction false} MarkedSpans(gaps: seq<string>, codes: seq<string>)
    requires |gaps| == |codes| + 1 && AllNoNul(gaps) && AllNoNul(codes)
    ensures Marked(WithSpans(gaps, codes))
    decreases |codes|
  {
    if |codes| == 0 {
      NoNulMarked(gaps[0]);
    } else {
      var w := WithSpans(gaps[1..], codes[1..]);
      assert AllNoNul(gaps[1..]) && AllNoNul(codes[1..]);
      MarkedSpans(gaps[1..], codes[1..]);
      Escape.CodeEachNoNul(codes[0]);
      SpanMarked(Escape.CodeEach(codes[0]), w);
      NoNulMarked(gaps[0]);
      MarkedAppend(gaps[0], Renderer.CodeSpanStart + (Escape.CodeEach(codes[0]) + (Renderer.CodeSpanEnd + w)));
      SpansCons(gaps, codes);
    }
  }

  // ---------------------------------------------------------------------
  // The input: a block, then `a` in code, a placeholder body, `b` in code
  // ---------------------------------------------------------------------

  /** The rendered paragraph: the span of `a`, the piece `g`, the span of `b`, then `e`. */
  function SpanGap(g: string, e: string): string {
    var cs, ce := Renderer.CodeSpanStart, Renderer.CodeSpanEnd;
    cs + ("a" + (ce + (g + (cs + ("b" + (ce + e))))))
  }

  lemma SpanGapShape(gaps: seq<string>, codes: seq<string>, g: string, e: string)
    requires gaps == ["", g, e] && codes == ["a", "b"]
    ensures WithSpans(gaps, codes) == SpanGap(g, e)
    ensures WithBraces(gaps, codes) == "{{a}}" + (g + ("{{b}}" + e))
  {
    SpansTwo(gaps, codes);
    BracesTwo(gaps, codes);
    CodeLetters("a", "b");
  }

  lemma SpanGapSplit(g: string, e: string)
    ensures SpanGap(g, e) == SpanGap(g, "") + e
  {
  }

  /** The rendered paragraph holds a `{`, a `*` or a newline only where its pieces do. */
  lemma SpanGapNoChar(g: string, e: string, c: char)
    requires c == '{' || c == '*' || c == '\n'
    requires NoChar(g, c) && NoChar(e, c)
    ensures NoChar(SpanGap(g, e), c)
  {
    var cs, ce := Renderer.CodeSpanStart, Renderer.CodeSpanEnd;
    assert NoChar(cs, c) && NoChar(ce, c) && NoChar("a", c) && NoChar("b", c);
    NoCharAppend(ce, e, c);
    NoCharAppend("b", ce + e, c);
    NoCharAppend(cs, "b" + (ce + e), c);
    NoCharAppend(g, cs + ("b" + (ce + e)), c);
    NoCharAppend(ce, g + (cs + ("b" + (ce + e))), c);
    NoCharAppend("a", ce + (g + (cs + ("b" + (ce + e)))), c);
    NoCharAppend(cs, "a" + (ce + (g + (cs + ("b" + (ce + e))))), c);
  }

  /** What the renderer's code block gives the block search: a NUL-free block, then a blank line. */
  lemma BlockEnds(ps: seq<string>, content: string)
    requires NoChar(Join(ps, "|"), '}') && NoChar(Join(ps, "|"), NUL)
    requires NoCloseToken(content) && NoChar(content, NUL)
    ensures var r := Renderer.CodeBlock(ps, content);
            |r| >= 10 && r == r[..|r| - 2] + "\n\n" && NoChar(r[..|r| - 2], NUL)
            && r[0] == '{' && r[|r| - 3] == '}'
  {
    var r := Renderer.CodeBlock(ps, content);
    var h := BlockParts(ps, content);
    assert r[0] == r[0..5][0];
    assert r[|r| - 3] == r[|r| - 8..|r| - 2][5];
    assert r == r[..|r| - 2] + r[|r| - 2..];
  }

  /** Steps 2 and 3 leave text without `**` and without three newlines in a row alone. */
  lemma MiddleKeeps(p: string)
    requires NoTriple(p) && forall k :: 0 <= k < |p| ==> !PairAt(p, k)
    ensures Middle(p) == p
  {
    BoldFixNoPair(p, 0);
    CollapseKeepsClean(p, 0);
    assert p[0..] == p;
  }

  /** Two lines without `*`, each followed by a blank line, the second not empty. */
  lemma TwoBlankLines(u: string, v: string, e: string)
    requires NoChar(u, '\n') && NoChar(v, '\n') && NoChar(u, '*') && NoChar(v, '*')
    requires |v| > 0 && e == "\n\n"
    ensures var s := u + (e + (v + e));
            NoTriple(s) && forall k :: 0 <= k < |s| ==> !PairAt(s, k)
  {
    var s := u + (e + (v + e));
    forall i | 0 <= i < |s|
      ensures !TripleAt(s, i)
    {
      if i < |u| {
        assert s[i] == u[i];
      } else if i < |u| + 2 {
        assert s[|u| + 2] == v[0];
      } else if i < |u| + 2 + |v| {
        assert s[i] == v[i - |u| - 2];
      }
    }
    NoCharAppend(v, e, '*');
    NoCharAppend(e, v + e, '*');
    NoCharAppend(u, e + (v + e), '*');
    forall k | 0 <= k < |s|
      ensures !PairAt(s, k)
    {
      assert s[k] != '*';
    }
  }

  /** Step 1 on the input: the block becomes sentinel 0, and steps 2 and 3 change nothing. */
  lemma ProtectedGap(ps: seq<string>, content: string, g: string, e: string)
    requires NoChar(Join(ps, "|"), '}') && NoChar(Join(ps, "|"), NUL)
    requires NoCloseToken(content) && NoChar(content, NUL)
    requires g == Body(0) && e == "\n\n"
    ensures var r := Renderer.CodeBlock(ps, content);
            var p := Sentinel(0) + (e + SpanGap(g, e));
            |r| >= 2 && Scan(r + SpanGap(g, e), 0) == (["", e + SpanGap(g, e)], [r[..|r| - 2]])
            && ProtectBlocks(r + SpanGap(g, e)) == (p, [r[..|r| - 2]]) && Middle(p) == p
  {
    GapNoBrace(g, e);
    CodeBlockScanThen(ps, content, SpanGap(g, e));
    WovenPair(e + SpanGap(g, e));
    MiddleGap(g, e);
  }

  lemma GapNoBrace(g: string, e: string)
    requires g == Body(0) && e == "\n\n"
    ensures NoChar(SpanGap(g, e), '{')
  {
    FirstBodies();
    SpanGapNoChar(g, e, '{');
  }

  /** Two pieces and one block: the first piece, sentinel 0, the second piece. */
  lemma WovenPair(x: string)
    ensures Woven(["", x], 0) == Sentinel(0) + x
  {
    assert ["", x][1..] == [x];
  }

  /** The protected input has no `**` and no three newlines in a row. */
  lemma MiddleGap(g: string, e: string)
    requires g == Body(0) && e == "\n\n"
    ensures Middle(Sentinel(0) + (e + SpanGap(g, e))) == Sentinel(0) + (e + SpanGap(g, e))
  {
    var u := Sentinel(0);
    var v := SpanGap(g, "");
    FirstBodies();
    SentinelPlain(0);
    assert NoChar(u, '\n') && NoChar(u, '*');
    SpanGapNoChar(g, "", '*');
    SpanGapNoChar(g, "", '\n');
    SpanGapSplit(g, e);
    TwoBlankLines(u, v, e);
    MiddleKeeps(u + (e + SpanGap(g, e)));
  }

  // ---------------------------------------------------------------------
  // Steps 4 and 5 as written
  // ---------------------------------------------------------------------

  /**
    What step 4 as written leaves after the blank line: the first span's
    start marker and code, its end marker less the closing NUL, the block
    `m` where the placeholder body was, and `CS` less the opening NUL of the
    second span.
  */
  function Misread(m: string, e: string): string {
    var n, cs, ce := [NUL], Renderer.CodeSpanStart, Renderer.CodeSpanEnd;
    cs + ("a" + (n + ("CE" + (m + ("CS" + (n + ("b" + (ce + e))))))))
  }

  /** After the false sentinel: the rest of the second span holds no sentinel. */
  lemma AfterFalseSentinel(z: string, rep: string, e: string)
    requires NoChar(z, NUL) && |z| > 2 && NoChar(e, NUL)
    ensures var n := [NUL];
            var t := "CS" + (n + ("b" + (Renderer.CodeSpanEnd + e)));
            ReplaceAll(t, n + z + n, rep) == t
  {
    var n := [NUL];
    var p := n + z + n;
    var t := n + ("b" + (Renderer.CodeSpanEnd + e));
    LoneNul(e, z, rep);
    assert n + "b" + n + "CE" + n + e == t;
    TwoFramedUntouched("b", "CE", e, z, rep);
    ReplaceAllSkips("CS", t, p, rep);
  }

  /**
    The end marker of the first span, the body `z` and the start marker of
    the second: the NUL closing the one, `z` and the NUL opening the other
    are sentinel `z`, and are replaced.
  */
  lemma FalseSentinel(z: string, rep: string, e: string)
    requires NoChar(z, NUL) && |z| > 2 && NoChar(e, NUL)
    ensures var n, cs, ce := [NUL], Renderer.CodeSpanStart, Renderer.CodeSpanEnd;
            ReplaceAll(ce + (z + (cs + ("b" + (ce + e)))), n + z + n, rep)
            == n + ("CE" + (rep + ("CS" + (n + ("b" + (ce + e))))))
  {
    var n, cs, ce := [NUL], Renderer.CodeSpanStart, Renderer.CodeSpanEnd;
    var p := n + z + n;
    var t := "CS" + (n + ("b" + (ce + e)));
    assert ce + (z + (cs + ("b" + (ce + e)))) == n + "CE" + (p + t);
    FramedSkip("CE", z, p + t, rep);
    ReplaceAllHit(t, p, rep);
    AfterFalseSentinel(z, rep, e);
  }

  /** The first span's start marker and code are framed bodies other than `z`. */
  lemma FirstSpanKept(z: string, rep: string, h: string)
    requires NoChar(z, NUL) && |z| > 2 && |h| > 0 && h[0] == NUL
    ensures var n := [NUL];
            ReplaceAll(Renderer.CodeSpanStart + ("a" + h), n + z + n, rep)
            == Renderer.CodeSpanStart + ("a" + ReplaceAll(h, n + z + n, rep))
  {
    var n := [NUL];
    var p := n + z + n;
    var k := ReplaceAll(h, p, rep);
    assert Renderer.CodeSpanStart + ("a" + h) == n + "CS" + (n + "a" + h);
    FramedSkip("CS", z, n + "a" + h, rep);
    FramedSkip("a", z, h, rep);
    KeptRegroup("a", k);
  }

  lemma KeptRegroup(c: string, k: string)
    ensures [NUL] + ("CS" + ([NUL] + (c + k))) == Renderer.CodeSpanStart + (c + k)
  {
  }

  /** Step 4 as written on the protected input: sentinel 0 and the false one both become the block. */
  lemma RestoreMisread(z: string, rep: string, f: string, e: string)
    requires NoChar(z, NUL) && |z| > 2 && NoChar(f, NUL) && NoChar(e, NUL)
    ensures var n := [NUL];
            ReplaceAll(n + z + n + (f + SpanGap(z, e)), n + z + n, rep) == rep + (f + Misread(rep, e))
  {
    var n, cs, ce := [NUL], Renderer.CodeSpanStart, Renderer.CodeSpanEnd;
    var p := n + z + n;
    var h := ce + (z + (cs + ("b" + (ce + e))));
    ReplaceAllHit(f + SpanGap(z, e), p, rep);
    ReplaceAllSkips(f, SpanGap(z, e), p, rep);
    FirstSpanKept(z, rep, h);
    FalseSentinel(z, rep, e);
  }

  /** What the opening replacement of step 5 leaves. */
  function Opened(m: string, e: string): string {
    "{{" + ("a" + ([NUL] + ("CE" + (m + ("CS" + ([NUL] + ("b" + (Renderer.CodeSpanEnd + e))))))))
  }

  /** What the closing replacement leaves: the first `}}` lost, two NULs kept, the block twice. */
  function Broken(m: string, e: string): string {
    "{{" + ("a" + ([NUL] + ("CE" + (m + ("CS" + ([NUL] + ("b" + ("}}" + e))))))))
  }

  /** The opening replacement of step 5 on what step 4 left: only the first span's start marker. */
  lemma OpenPassMisread(m: string, e: string)
    requires NoChar(m, NUL) && NoChar(e, NUL)
    ensures ReplaceAll(Misread(m, e), Renderer.CodeSpanStart, "{{") == Opened(m, e)
  {
    var n, cs, ce := [NUL], Renderer.CodeSpanStart, Renderer.CodeSpanEnd;
    var t := n + ("b" + (ce + e));
    BetweenUntouched(e, t);
    ReplaceAllSkips("CS", t, cs, "{{");
    ReplaceAllSkips(m, "CS" + t, cs, "{{");
    var w := m + ("CS" + t);
    ReplaceAllSkips("CE", w, cs, "{{");
    var u := n + ("CE" + w);
    assert !StartsWith(u, cs) by { assert u[2] != cs[2]; }
    ReplaceAllMiss(u, cs, "{{");
    assert u[1..] == "CE" + w;
    ReplaceAllSkips("a", u, cs, "{{");
    ReplaceAllHit("a" + u, cs, "{{");
  }

  /** The closing replacement: only the second span's end marker, since the block follows the first one's `CE`. */
  lemma ClosePassMisread(m: string, e: string)
    requires NoChar(m, NUL) && |m| > 0 && NoChar(e, NUL)
    ensures ReplaceAll(Opened(m, e), Renderer.CodeSpanEnd, "}}") == Broken(m, e)
  {
    var n, ce := [NUL], Renderer.CodeSpanEnd;
    var u := n + ("CE" + (m + ("CS" + (n + ("b" + (ce + e))))));
    CloseAtFirstEnd(m, e, u, ce);
    SkipTwo("{{", "a", u, ce, "}}");
  }

  /** The first span's end marker is followed by the block, not by a NUL, so it is not replaced. */
  lemma CloseAtFirstEnd(m: string, e: string, u: string, ce: string)
    requires NoChar(m, NUL) && |m| > 0 && NoChar(e, NUL) && ce == Renderer.CodeSpanEnd
    requires u == [NUL] + ("CE" + (m + ("CS" + ([NUL] + ("b" + (ce + e))))))
    ensures ReplaceAll(u, ce, "}}") == [NUL] + ("CE" + (m + ("CS" + ([NUL] + ("b" + ("}}" + e))))))
  {
    var x := m + ("CS" + ([NUL] + ("b" + (ce + e))));
    CloseAfterBlock(m, e);
    ReplaceAllSkips("CE", x, ce, "}}");
    assert !StartsWith(u, ce) by { assert u[3] == m[0] != ce[3]; }
    ReplaceAllMiss(u, ce, "}}");
    assert u[0] == NUL && u[1..] == "CE" + x;
  }

  lemma SkipTwo(a: string, b: string, u: string, pat: string, rep: string)
    requires |pat| > 0 && NoChar(a, pat[0]) && NoChar(b, pat[0])
    ensures ReplaceAll(a + (b + u), pat, rep) == a + (b + ReplaceAll(u, pat, rep))
  {
    ReplaceAllSkips(b, u, pat, rep);
    ReplaceAllSkips(a, b + u, pat, rep);
  }

  lemma CloseAfterBlock(m: string, e: string)
    requires NoChar(m, NUL) && NoChar(e, NUL)
    ensures var n, ce := [NUL], Renderer.CodeSpanEnd;
            ReplaceAll(m + ("CS" + (n + ("b" + (ce + e)))), ce, "}}") == m + ("CS" + (n + ("b" + ("}}" + e))))
  {
    var n, ce := [NUL], Renderer.CodeSpanEnd;
    var v := n + ("b" + (ce + e));
    CloseLast(e, v);
    ReplaceAllSkips("CS", v, ce, "}}");
    ReplaceAllSkips(m, "CS" + v, ce, "}}");
  }

  /** Step 5 as written after a NUL-free text `x`. */
  lemma InlineRestoreMisread(x: string, m: string, e: string)
    requires NoChar(x, NUL) && NoChar(m, NUL) && |m| > 0 && NoChar(e, NUL)
    ensures InlineRestore(x + Misread(m, e)) == x + Broken(m, e)
  {
    ReplaceAllSkips(x, Misread(m, e), Renderer.CodeSpanStart, "{{");
    OpenPassMisread(m, e);
    ReplaceAllSkips(x, Opened(m, e), Renderer.CodeSpanEnd, "}}");
    ClosePassMisread(m, e);
  }

  /** Step 4 as written with one saved block: one pass for sentinel 0. */
  lemma RestoreOne(s: string, blk: string)
    ensures RestoreBlocks(s, [blk]) == ReplaceAll(s, Sentinel(0), blk)
  {
    assert RestoreFrom(ReplaceAll(s, Sentinel(0), blk), [blk], 1) == ReplaceAll(s, Sentinel(0), blk);
  }

  lemma BrokenSplit(m: string, e: string)
    ensures Broken(m, e) == Broken(m, "") + e
  {
  }

  lemma BrokenText(m: string, f: string)
    requires f == "\n\n"
    ensures m + f + Broken(m, "") + "\n" == m + "\n\n{{a\0CE" + m + "CS\0b}}\n"
  {
  }

  /** Steps 4 and 5 as written and the final strip, after steps 1 to 3 on the input. */
  lemma AsWrittenTail(blk: string, g: string, e: string)
    requires g == Body(0) && e == "\n\n"
    requires NoChar(blk, NUL) && |blk| > 0 && blk[0] == '{' && blk[|blk| - 1] == '}'
    ensures Finalize(InlineRestore(RestoreBlocks(Sentinel(0) + (e + SpanGap(g, e)), [blk])))
            == blk + "\n\n{{a\0CE" + blk + "CS\0b}}\n"
  {
    AsWrittenRestored(blk, g, e);
    AsWrittenFinal(blk, e);
  }

  lemma AsWrittenRestored(blk: string, g: string, e: string)
    requires g == Body(0) && NoChar(e, NUL)
    requires NoChar(blk, NUL) && |blk| > 0
    ensures InlineRestore(RestoreBlocks(Sentinel(0) + (e + SpanGap(g, e)), [blk])) == (blk + e) + Broken(blk, e)
  {
    FirstBodies();
    RestoreOne(Sentinel(0) + (e + SpanGap(g, e)), blk);
    RestoreMisread(g, blk, e, e);
    assert blk + (e + Misread(blk, e)) == (blk + e) + Misread(blk, e);
    NoCharAppend(blk, e, NUL);
    InlineRestoreMisread(blk + e, blk, e);
  }

  lemma AsWrittenFinal(blk: string, e: string)
    requires e == "\n\n" && |blk| > 0 && blk[0] == '{'
    ensures Finalize((blk + e) + Broken(blk, e)) == blk + "\n\n{{a\0CE" + blk + "CS\0b}}\n"
  {
    BrokenSplit(blk, e);
    var x := (blk + e) + Broken(blk, "");
    assert x[0] == blk[0] && x[|x| - 1] == '}';
    assert (blk + e) + Broken(blk, e) == x + "\n\n";
    ConversionFacts.StripBlockLine(x);
    BrokenText(blk, e);
  }

  // ---------------------------------------------------------------------
  // The whole post-processing, as written and positionally
  // ---------------------------------------------------------------------

  /**
    The finding: a code block, then a paragraph holding `a` in code, the
    text `CODE_BLOCK_0` and `b` in code. Step 4 as written puts the block
    back a second time where the placeholder text was, and step 5 then loses
    the first `}}` and leaves two NULs.
  */
  lemma FramedGapAsWritten(ps: seq<string>, content: string, gaps: seq<string>, codes: seq<string>)
    requires NoChar(Join(ps, "|"), '}') && NoChar(Join(ps, "|"), NUL)
    requires NoCloseToken(content) && NoChar(content, NUL)
    requires gaps == ["", "CODE_BLOCK_0", "\n\n"] && codes == ["a", "b"]
    ensures var r := Renderer.CodeBlock(ps, content);
            |r| >= 2 && var blk := r[..|r| - 2];
            PostProcess.PostProcess(r + WithSpans(gaps, codes)) == blk + "\n\n{{a\0CE" + blk + "CS\0b}}\n"
  {
    var r := Renderer.CodeBlock(ps, content);
    var g, e := gaps[1], gaps[2];
    FirstBodies();
    SpanGapShape(gaps, codes, g, e);
    ProtectedGap(ps, content, g, e);
    BlockEnds(ps, content);
    AsWrittenTail(r[..|r| - 2], g, e);
  }

  /** With the positional restores the same input comes out with the block once and both spans whole. */
  lemma FramedGapPositional(ps: seq<string>, content: string, gaps: seq<string>, codes: seq<string>)
    requires NoChar(Join(ps, "|"), '}') && NoChar(Join(ps, "|"), NUL)
    requires NoCloseToken(content) && NoChar(content, NUL)
    requires gaps == ["", "CODE_BLOCK_0", "\n\n"] && codes == ["a", "b"]
    ensures var r := Renderer.CodeBlock(ps, content);
            |r| >= 2 && var blk := r[..|r| - 2];
            PostProcessPositional(r + WithSpans(gaps, codes)) == blk + "\n\n{{a}}CODE_BLOCK_0{{b}}\n"
  {
    var r := Renderer.CodeBlock(ps, content);
    var g, e := gaps[1], gaps[2];
    SpanGapShape(gaps, codes, g, e);
    FirstBodies();
    ProtectedGap(ps, content, g, e);
    GapNulFree(gaps, codes, g, e);
    GapMarked(gaps, codes, e);
    PositionalRestored(r + SpanGap(g, e), ["", e + SpanGap(g, e)], r[..|r| - 2]);
    BlockEnds(ps, content);
    PositionalTail(r, gaps, codes, g, e);
  }

  /** When steps 2 and 3 change nothing, the positional block restore gives marked pieces back. */
  lemma PositionalRestored(raw: string, lits: seq<string>, blk: string)
    requires Scan(raw, 0) == (lits, [blk]) && AllMarked(lits)
    requires Middle(ProtectBlocks(raw).0) == ProtectBlocks(raw).0
    ensures RestoreScan(Middle(ProtectBlocks(raw).0), ProtectBlocks(raw).1) == raw
  {
    ProtectRestoreScanMarked(raw);
  }

  lemma GapNulFree(gaps: seq<string>, codes: seq<string>, g: string, e: string)
    requires gaps == ["", g, e] && codes == ["a", "b"] && g == "CODE_BLOCK_0" && e == "\n\n"
    ensures AllNoNul(gaps) && AllNoNul(codes) && NoChar(e, NUL)
  {
  }

  /** The pieces step 1 leaves around a block followed by a blank line and rendered spans are marked. */
  lemma GapMarked(gaps: seq<string>, codes: seq<string>, e: string)
    requires |gaps| == |codes| + 1 && AllNoNul(gaps) && AllNoNul(codes) && NoChar(e, NUL)
    ensures AllMarked(["", e + WithSpans(gaps, codes)])
  {
    MarkedSpans(gaps, codes);
    NoNulMarked(e);
    MarkedAppend(e, WithSpans(gaps, codes));
    assert Marked("");
  }

  /** Step 5 done positionally and the final strip, after the block came back in place. */
  lemma PositionalTail(r: string, gaps: seq<string>, codes: seq<string>, g: string, e: string)
    requires gaps == ["", g, e] && codes == ["a", "b"] && g == "CODE_BLOCK_0" && e == "\n\n"
    requires WithSpans(gaps, codes) == SpanGap(g, e) && WithBraces(gaps, codes) == "{{a}}" + (g + ("{{b}}" + e))
    requires |r| >= 10 && r == r[..|r| - 2] + "\n\n" && NoChar(r[..|r| - 2], NUL) && r[0] == '{'
    ensures Finalize(InlineScan(r + SpanGap(g, e))) == r[..|r| - 2] + "\n\n{{a}}CODE_BLOCK_0{{b}}\n"
  {
    var blk := r[..|r| - 2];
    NoCharAppend(blk, e, NUL);
    assert AllNoNul(gaps) && AllNoNul(codes);
    InlineScanSkips(r, SpanGap(g, e));
    InlineScanSpans(gaps, codes);
    var w := "{{a}}" + (g + "{{b}}");
    BracesLine(g, e, w);
    FinalStrip(blk, w, e);
    PositionalText(blk, g, e, w);
  }

  lemma BracesLine(g: string, e: string, w: string)
    requires w == "{{a}}" + (g + "{{b}}")
    ensures "{{a}}" + (g + ("{{b}}" + e)) == w + e && |w| > 0 && w[|w| - 1] == '}'
  {
  }

  /** A block, a blank line, a line ending in `}` and a blank line: the strip keeps all but the last blank line. */
  lemma FinalStrip(blk: string, w: string, e: string)
    requires e == "\n\n" && |blk| > 0 && blk[0] == '{' && |w| > 0 && w[|w| - 1] == '}'
    ensures Finalize((blk + e) + (w + e)) == blk + (e + w) + "\n"
  {
    var y := blk + (e + w);
    assert y[0] == blk[0] && y[|y| - 1] == w[|w| - 1];
    assert (blk + e) + (w + e) == y + "\n\n";
    ConversionFacts.StripBlockLine(y);
  }

  lemma PositionalText(blk: string, g: string, e: string, w: string)
    requires g == "CODE_BLOCK_0" && e == "\n\n" && w == "{{a}}" + (g + "{{b}}")
    ensures blk + (e + w) + "\n" == blk + "\n\n{{a}}CODE_BLOCK_0{{b}}\n"
  {
  }
}
