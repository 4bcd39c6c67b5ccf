/**
  Code blocks as the renderer emits them against the block search of the
  post-processor: a rendered block whose parameters hold no `}` and whose
  content holds no `{code}` is found as exactly one match, which runs to the
  closing `{code}` and leaves the two final newlines outside.
*/
module BlockScan {
  import opened Wrappers
  import opened Strings
  import opened Tree
  import opened Renderer
  import opened Protect
  import opened RenderFacts
  import ProtectFacts

  /** `t` holds no closing token `{code}`. */
  predicate NoCloseToken(t: string) {
    forall p :: 0 <= p < |t| ==> !CloseTokenAt(t, p)
  }

  /** The search for `c` from `j` stops at the first `c`. */
  lemma {:induction false} FirstFromFinds(s: string, c: char, j: nat, q: nat)
    requires j <= q < |s| && s[q] == c
    requires forall p :: j <= p < q ==> s[p] != c
    ensures FirstFrom(s, c, j) == Some(q)
    decreases q - j
  {
    if j < q {
      FirstFromFinds(s, c, j + 1, q);
    }
  }

  /** No closing token starts from `k` up to, not including, `q`. */
  predicate TokenFree(s: string, k: nat, q: nat) {
    forall p :: k <= p < q ==> !CloseTokenAt(s, p)
  }

  /** The search for the closing token from `k` stops at the first one. */
  lemma {:induction false} CloseFromFinds(s: string, k: nat, q: nat)
    requires k <= q && CloseTokenAt(s, q) && TokenFree(s, k, q)
    ensures CloseFrom(s, k) == Some(q + 6)
    decreases q - k
  {
    if k < q {
      assert !CloseTokenAt(s, k);
      CloseFromFinds(s, k + 1, q);
    }
  }

  /** Fewer than six characters from the end, no block starts. */
  lemma {:induction false} NoBlockNearEnd(s: string, from: nat)
    requires from <= |s| < from + 6
    ensures FindBlock(s, from).None?
    decreases |s| - from
  {
    assert MatchAt(s, from).None?;
    if from < |s| {
      NoBlockNearEnd(s, from + 1);
    }
  }

  /** A window of six characters that holds a newline is not the closing token. */
  lemma NewlineBlocks(s: string, p: nat, n: nat)
    requires p <= n < p + 6 <= |s| && s[n] == '\n'
    ensures !CloseTokenAt(s, p)
  {
    assert s[p..p + 6][n - p] == '\n';
    assert "{code}"[n - p] != '\n';
  }

  /** A window inside the middle part of `a + m + b` is a window of `m`. */
  lemma MiddleWindow(a: string, m: string, b: string, p: nat)
    requires p + 6 <= |m|
    ensures CloseTokenAt(a + m + b, |a| + p) == CloseTokenAt(m, p)
  {
    assert (a + m + b)[|a| + p..|a| + p + 6] == m[p..p + 6];
  }

  /** The parameter text of a block: a colon and the joined parameters, or nothing. */
  function ParamText(ps: seq<string>): string {
    var joined := Join(ps, "|");
    if |joined| > 0 then ":" + joined else ""
  }

  lemma CodeBlockParts(ps: seq<string>, content: string)
    ensures CodeBlock(ps, content)
         == ("{code" + ParamText(ps) + "}\n") + DropFinalNewline(content) + "\n{code}\n\n"
  {
  }

  /** The opening `{code...}` of a block whose parameter text holds no `}`. */
  lemma OpenFound(pt: string, rest: string)
    requires NoChar(pt, '}') && (pt == "" || pt[0] == ':')
    ensures OpenAt("{code" + pt + "}\n" + rest, 0) == Some(6 + |pt|)
  {
    var s := "{code" + pt + "}\n" + rest;
    assert s[0..5] == "{code";
    assert s[5 + |pt|] == '}';
    forall p | 5 <= p < 5 + |pt|
      ensures s[p] != '}'
    {
      assert s[p] == pt[p - 5];
    }
    FirstFromFinds(s, '}', 5, 5 + |pt|);
  }

  /**
    The closing token is found right after the content: every window before
    it either lies inside the content or holds one of the two newlines that
    frame it.
  */
  lemma CloseFound(a: string, m: string, b: string)
    requires |a| > 0 && a[|a| - 1] == '\n' && NoCloseToken(m)
    requires b == "\n{code}\n\n"
    ensures CloseTokenAt(a + m + b, |a| + |m| + 1)
    ensures TokenFree(a + m + b, |a| - 1, |a| + |m| + 1)
    ensures |a + m + b| == |a| + |m| + 9
  {
    NoTokensBefore(a, m, b);
    CloseAfter(a, m, b);
  }

  /** An opening at `0` ending at `h` and the first closing token from `h` at `q` make one match. */
  lemma MatchFromParts(r: string, h: nat, q: nat)
    requires h <= q && q + 6 <= |r| && OpenAt(r, 0) == Some(h)
    requires CloseTokenAt(r, q) && TokenFree(r, h, q)
    ensures FindBlock(r, 0) == Some((0, q + 6))
  {
    CloseFromFinds(r, h, q);
  }

  lemma NoTokensBefore(a: string, m: string, b: string)
    requires |a| > 0 && a[|a| - 1] == '\n' && NoCloseToken(m)
    requires b == "\n{code}\n\n"
    ensures TokenFree(a + m + b, |a| - 1, |a| + |m| + 1)
  {
    forall p | |a| - 1 <= p < |a| + |m| + 1
      ensures !CloseTokenAt(a + m + b, p)
    {
      NoTokenBefore(a, m, b, p);
    }
  }

  lemma CloseAfter(a: string, m: string, b: string)
    requires b == "\n{code}\n\n"
    ensures CloseTokenAt(a + m + b, |a| + |m| + 1)
  {
    var q := |a| + |m| + 1;
    assert (a + m + b)[q..q + 6] == b[1..7];
  }

  lemma NoTokenBefore(a: string, m: string, b: string, p: nat)
    requires |a| > 0 && a[|a| - 1] == '\n' && NoCloseToken(m)
    requires b == "\n{code}\n\n"
    requires |a| - 1 <= p < |a| + |m| + 1
    ensures !CloseTokenAt(a + m + b, p)
  {
    var s := a + m + b;
    if p == |a| - 1 {
      assert s[p] == '\n';
      NewlineBlocks(s, p, p);
    } else if p + 6 <= |a| + |m| {
      MiddleWindow(a, m, b, p - |a|);
    } else {
      assert s[|a| + |m|] == '\n';
      NewlineBlocks(s, p, |a| + |m|);
    }
  }

  /** Content without the closing token keeps none once its final newline is dropped. */
  lemma DropKeepsClean(content: string)
    requires NoCloseToken(content)
    ensures NoCloseToken(DropFinalNewline(content))
  {
    var m := DropFinalNewline(content);
    forall p | 0 <= p < |m| && CloseTokenAt(m, p)
      ensures false
    {
      assert m[p..p + 6] == content[p..p + 6];
      assert CloseTokenAt(content, p);
    }
  }

  /**
    A rendered block whose parameters hold no `}` and whose content holds no
    `{code}` scans as one match: no text before it, the block less its two
    final newlines as the match, and those newlines after it.
  */
  lemma CodeBlockScan(ps: seq<string>, content: string)
    requires NoChar(Join(ps, "|"), '}') && NoCloseToken(content)
    ensures var r := CodeBlock(ps, content);
            |r| >= 2 && Scan(r, 0) == (["", "\n\n"], [r[..|r| - 2]])
  {
    BlockMatch(ps, content);
    ScanTail(CodeBlock(ps, content));
  }

  lemma ScanTail(r: string)
    requires |r| >= 2 && FindBlock(r, 0) == Some((0, |r| - 2)) && r[|r| - 2..] == "\n\n"
    ensures Scan(r, 0) == (["", "\n\n"], [r[..|r| - 2]])
  {
    NoBlockNearEnd(r, |r| - 2);
    ScanOneBlock(r, |r| - 2);
    assert r[0..0] == "" && r[0..|r| - 2] == r[..|r| - 2];
  }

  /** The block is one match running from its start to just before the two final newlines. */
  lemma BlockMatch(ps: seq<string>, content: string)
    requires NoChar(Join(ps, "|"), '}') && NoCloseToken(content)
    ensures var r := CodeBlock(ps, content);
            |r| >= 2 && FindBlock(r, 0) == Some((0, |r| - 2)) && r[|r| - 2..] == "\n\n"
  {
    var r := CodeBlock(ps, content);
    var h := BlockParts(ps, content);
    MatchFromParts(r, h, |r| - 8);
  }

  /** Where the opening of a rendered block ends, with the facts that place its closing token. */
  lemma BlockParts(ps: seq<string>, content: string) returns (h: nat)
    requires NoChar(Join(ps, "|"), '}') && NoCloseToken(content)
    ensures var r := CodeBlock(ps, content);
            h + 8 <= |r| && OpenAt(r, 0) == Some(h)
            && CloseTokenAt(r, |r| - 8) && TokenFree(r, h, |r| - 8) && r[|r| - 2..] == "\n\n"
  {
    var pt, m := ParamText(ps), DropFinalNewline(content);
    var a, b := "{code" + pt + "}\n", "\n{code}\n\n";
    CodeBlockParts(ps, content);
    var r := a + m + b;
    assert NoChar(pt, '}') by {
      var joined := Join(ps, "|");
      if |joined| > 0 {
        assert forall i :: 1 <= i < |pt| ==> pt[i] == joined[i - 1];
      }
    }
    assert r == "{code" + pt + "}\n" + (m + b);
    OpenFound(pt, m + b);
    DropKeepsClean(content);
    CloseFound(a, m, b);
    assert r[|r| - 2..] == "\n\n";
    h := |a| - 1;
  }

  /** A text that is one match up to `e` and no match after it. */
  lemma ScanOneBlock(r: string, e: nat)
    requires e <= |r| && FindBlock(r, 0) == Some((0, e)) && FindBlock(r, e).None?
    ensures Scan(r, 0) == ([r[0..0], r[e..]], [r[0..e]])
  {
    ScanCons(r, 0, 0, e);
    ScanEnd(r, e);
    assert [r[0..0]] + [r[e..]] == [r[0..0], r[e..]];
    assert [r[0..e]] + [] == [r[0..e]];
  }

  lemma ScanEnd(r: string, e: nat)
    requires e <= |r| && FindBlock(r, e).None?
    ensures Scan(r, e) == ([r[e..]], [])
  {
  }

  /**
    A fenced block whose info string, theme and content hold no `}` and no
    `{code}` renders as one match followed by the two newlines.
  */
  lemma FencedScan(info: string, content: string, ctx: Ctx, opts: Options)
    requires NoChar(info, '}') && (opts.theme.Some? ==> NoChar(opts.theme.value, '}'))
    requires NoCloseToken(content)
    ensures var r := Render(FencedCodeBlock(info, content), ctx, opts);
            |r| >= 2 && Scan(r, 0) == (["", "\n\n"], [r[..|r| - 2]])
  {
    FencedRender(info, content, ctx, opts);
    FencedParamsClean(info, opts, '}');
    CodeBlockScan(FencedParams(info, opts), content);
  }

  /** The same for an indented block, whose only parameter is the theme. */
  lemma IndentedScan(content: string, ctx: Ctx, opts: Options)
    requires (opts.theme.Some? ==> NoChar(opts.theme.value, '}'))
    requires NoCloseToken(content)
    ensures var r := Render(IndentedCodeBlock(content), ctx, opts);
            |r| >= 2 && Scan(r, 0) == (["", "\n\n"], [r[..|r| - 2]])
  {
    IndentedRender(content, ctx, opts);
    var ps := ThemeParams(opts);
    if HasTheme(opts) {
      NoCharAppend("theme=", opts.theme.value, '}');
    }
    JoinClean(ps, "|", '}');
    CodeBlockScan(ps, content);
  }

  /**
    Text without `{` after a rendered block adds no match: the block is still
    the only one, and the text joins its two final newlines in the last piece.
  */
  lemma CodeBlockScanThen(ps: seq<string>, content: string, tail: string)
    requires NoChar(Join(ps, "|"), '}') && NoCloseToken(content) && NoChar(tail, '{')
    ensures var r := CodeBlock(ps, content);
            |r| >= 2 && Scan(r + tail, 0) == (["", "\n\n" + tail], [r[..|r| - 2]])
  {
    var h := BlockParts(ps, content);
    BlockThen(CodeBlock(ps, content), tail, h);
  }

  /** A block found as one match up to its two final newlines, then text without `{`. */
  lemma BlockThen(r: string, tail: string, h: nat)
    requires h + 8 <= |r| && OpenAt(r, 0) == Some(h) && r[|r| - 2..] == "\n\n"
    requires CloseTokenAt(r, |r| - 8) && TokenFree(r, h, |r| - 8) && NoChar(tail, '{')
    ensures Scan(r + tail, 0) == (["", "\n\n" + tail], [r[..|r| - 2]])
  {
    var s := r + tail;
    FoundThen(r, tail, h);
    NoBlockAfter(r, tail);
    ScanOneBlock(s, |r| - 2);
    ThenSlices(r, tail);
  }

  lemma ThenSlices(r: string, tail: string)
    requires |r| >= 2 && r[|r| - 2..] == "\n\n"
    ensures (r + tail)[0..0] == "" && (r + tail)[0..|r| - 2] == r[..|r| - 2]
    ensures (r + tail)[|r| - 2..] == "\n\n" + tail
  {
    assert (r + tail)[|r| - 2..] == r[|r| - 2..] + tail;
  }

  lemma FoundThen(r: string, tail: string, h: nat)
    requires h + 8 <= |r| && OpenAt(r, 0) == Some(h)
    requires CloseTokenAt(r, |r| - 8) && TokenFree(r, h, |r| - 8)
    ensures FindBlock(r + tail, 0) == Some((0, |r| - 2))
  {
    var s := r + tail;
    var q := |r| - 8;
    OpenThen(r, tail, h);
    assert CloseTokenAt(s, q) by {
      assert s[q..q + 6] == r[q..q + 6];
    }
    forall p | h <= p < q
      ensures !CloseTokenAt(s, p)
    {
      assert s[p..p + 6] == r[p..p + 6];
      assert !CloseTokenAt(r, p);
    }
    MatchFromParts(s, h, q);
  }

  lemma NoBlockAfter(r: string, tail: string)
    requires |r| >= 2 && r[|r| - 2..] == "\n\n" && NoChar(tail, '{')
    ensures FindBlock(r + tail, |r| - 2).None?
  {
    var s := r + tail;
    forall i | |r| - 2 <= i < |s|
      ensures s[i] != '{'
    {
      if i < |r| {
        assert r[|r| - 2..][i - (|r| - 2)] == r[i];
      } else {
        assert s[i] == tail[i - |r|];
      }
    }
    ProtectFacts.FindSkips(s, |r| - 2, |s|);
    NoBlockNearEnd(s, |s|);
  }

  /** The opening of a block is found the same with text after the block. */
  lemma OpenThen(r: string, tail: string, h: nat)
    requires h <= |r| && OpenAt(r, 0) == Some(h)
    ensures OpenAt(r + tail, 0) == Some(h)
  {
    var s := r + tail;
    assert s[0..5] == r[0..5] && s[5] == r[5];
    var j := FirstFrom(r, '}', 5).value;
    forall p | 5 <= p < j
      ensures s[p] != '}'
    {
      assert s[p] == r[p];
    }
    assert s[j] == r[j];
    FirstFromFinds(s, '}', 5, j);
  }
}
