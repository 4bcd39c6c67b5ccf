/**
  The post-processing of the rendered text, steps 1 to 5 in order:
  protect the `{code}` blocks, fix residual bold, collapse excess newlines,
  restore the blocks, restore inline-code markers; then strip and end with
  one newline.
*/
module PostProcess {
  import opened Wrappers
  import opened Strings
  import opened Protect
  import opened ProtectFacts
  import opened Rewrite
  import Escape
  import Renderer

  /** Step 5: the inline-code markers become `{{` and `}}`. */
  function InlineRestore(s: string): (r: string)
    ensures NoChar(s, NUL) ==> r == s
  {
    ReplaceAbsent(s, Renderer.CodeSpanStart, "{{");
    ReplaceAbsent(s, Renderer.CodeSpanEnd, "}}");
    ReplaceAll(ReplaceAll(s, Renderer.CodeSpanStart, "{{"), Renderer.CodeSpanEnd, "}}")
  }

  /**
    Step 5 done positionally: the text is read left to right, an opening
    marker becomes `{{` and a closing one `}}`, and reading resumes after the
    marker, so the NUL closing one marker never opens another.
  */
  function InlineScan(s: string): (r: string)
    ensures |r| <= |s|
    decreases |s|
  {
    if |s| == 0 then ""
    else if StartsWith(s, Renderer.CodeSpanStart) then "{{" + InlineScan(s[4..])
    else if StartsWith(s, Renderer.CodeSpanEnd) then "}}" + InlineScan(s[4..])
    else [s[0]] + InlineScan(s[1..])
  }

  /** Both markers open with a NUL. */
  lemma MarkerHead(s: string)
    ensures StartsWith(s, Renderer.CodeSpanStart) || StartsWith(s, Renderer.CodeSpanEnd) ==> |s| >= 4 && s[0] == NUL
  {
    if StartsWith(s, Renderer.CodeSpanStart) || StartsWith(s, Renderer.CodeSpanEnd) {
      assert s[0] == s[..4][0];
    }
  }

  /** The final `strip()` and newline. */
  function Finalize(s: string): (r: string)
    ensures |r| > 0 && r[|r| - 1] == '\n'
    ensures r == "\n" <==> IsBlank(s)
    ensures |r| > 1 ==> !IsWhitespace(r[0]) && !IsWhitespace(r[|r| - 2])
  {
    Strip(s) + "\n"
  }

  /** Steps 2 and 3 on the protected text. */
  function Middle(p: string): (r: string)
    ensures NoTriple(r)
    ensures Squeeze(r) == Squeeze(p)
  {
    var b := BoldFix(p);
    BoldIsKeep(p, 0);
    CollapseIsKeep(b, 0);
    assert p[0..] == p && b[0..] == b;
    KeepSqueeze(p, BoldMask(p, 0));
    KeepSqueeze(b, CollapseMask(b, 0));
    Collapse(b)
  }

  /** The post-processing as written. */
  function PostProcess(text: string): (r: string)
    ensures |r| > 0 && r[|r| - 1] == '\n'
    ensures |r| > 1 ==> !IsWhitespace(r[0]) && !IsWhitespace(r[|r| - 2])
  {
    var (p, blocks) := ProtectBlocks(text);
    Finalize(InlineRestore(RestoreBlocks(Middle(p), blocks)))
  }

  /** The post-processing with steps 4 and 5 done positionally. */
  function PostProcessPositional(text: string): (r: string)
    ensures |r| > 0 && r[|r| - 1] == '\n'
    ensures |r| > 1 ==> !IsWhitespace(r[0]) && !IsWhitespace(r[|r| - 2])
  {
    var (p, blocks) := ProtectBlocks(text);
    Finalize(InlineScan(RestoreScan(Middle(p), blocks)))
  }

  // ---------------------------------------------------------------------
  // Steps 2 and 3 leave the sentinels in place
  // ---------------------------------------------------------------------

  predicate Plain(s: string) {
    forall i :: 0 <= i < |s| ==> !Erasable(s[i])
  }

  lemma SentinelPlain(k: nat)
    ensures Plain(Sentinel(k))
  {
    var d := Decimal(k);
    var s := Sentinel(k);
    assert s == [NUL] + "CODE_BLOCK_" + d + [NUL];
    forall i | 0 <= i < |s|
      ensures !Erasable(s[i])
    {
      if 12 <= i < |s| - 1 {
        assert s[i] == d[i - 12];
      }
    }
  }

  /** A mask that may drop only erasable characters keeps a plain text whole. */
  lemma KeepPlain(s: string, m: seq<bool>)
    requires DropsErasable(s, m) && Plain(s)
    ensures Keep(s, m) == s
  {
    forall i | 0 <= i < |s|
      ensures m[i]
    {
      assert KeptOrErasable(s, m, i);
    }
    assert m == Trues(|s|);
    KeepAll(s);
  }

  lemma {:induction false} SqueezePlain(s: string)
    requires Plain(s)
    ensures Squeeze(s) == s
    decreases |s|
  {
    if |s| > 0 {
      SqueezePlain(s[1..]);
      assert s == [s[0]] + s[1..];
    }
  }

  lemma MaskSlice(s: string, m: seq<bool>, a: nat, b: nat)
    requires DropsErasable(s, m) && a <= b <= |s|
    ensures DropsErasable(s[a..b], m[a..b])
  {
    forall i | 0 <= i < b - a
      ensures KeptOrErasable(s[a..b], m[a..b], i)
    {
      assert KeptOrErasable(s, m, a + i);
      assert m[a..b][i] == m[a + i];
    }
  }

  lemma {:induction false} KeepNoChar(s: string, m: seq<bool>, c: char)
    requires |m| == |s| && NoChar(s, c)
    ensures NoChar(Keep(s, m), c)
    decreases |s|
  {
    if |s| > 0 {
      KeepNoChar(s[1..], m[1..], c);
      NoCharAppend(if m[0] then [s[0]] else "", Keep(s[1..], m[1..]), c);
    }
  }

  /** The pieces of a woven text that a mask keeps, the sentinels' mask entries skipped. */
  function KeptLits(lits: seq<string>, base: nat, m: seq<bool>): (r: seq<string>)
    requires |lits| >= 1 && |m| == |Woven(lits, base)|
    ensures |r| == |lits|
    decreases |lits|
  {
    if |lits| == 1 then [Keep(lits[0], m)]
    else
      var a := |lits[0]|;
      var b := a + |Sentinel(base)|;
      [Keep(lits[0], m[..a])] + KeptLits(lits[1..], base + 1, m[b..])
  }

  /** A mask over a woven text splits into the first piece's, the sentinel's and the rest's. */
  lemma KeepWovenSplit(lits: seq<string>, base: nat, m: seq<bool>)
    requires |lits| >= 2 && DropsErasable(Woven(lits, base), m)
    ensures var a := |lits[0]|;
            var b := a + |Sentinel(base)|;
            b <= |m|
            && DropsErasable(lits[0], m[..a])
            && DropsErasable(Woven(lits[1..], base + 1), m[b..])
            && Keep(Woven(lits, base), m)
               == Keep(lits[0], m[..a]) + Sentinel(base) + Keep(Woven(lits[1..], base + 1), m[b..])
  {
    var w := Woven(lits, base);
    var a := |lits[0]|;
    var b := a + |Sentinel(base)|;
    var rest := Woven(lits[1..], base + 1);
    assert w == lits[0] + Sentinel(base) + rest;
    assert w[..a] == lits[0] && w[a..b] == Sentinel(base) && w[b..] == rest;
    MaskSlice(w, m, 0, a);
    MaskSlice(w, m, a, b);
    MaskSlice(w, m, b, |w|);
    assert m[0..a] == m[..a] && m[b..|w|] == m[b..] && w[0..a] == w[..a] && w[b..|w|] == w[b..];
    assert m == m[..a] + m[a..b] + m[b..];
    KeepAppend(lits[0] + Sentinel(base), rest, m[..a] + m[a..b], m[b..]);
    KeepAppend(lits[0], Sentinel(base), m[..a], m[a..b]);
    SentinelPlain(base);
    KeepPlain(Sentinel(base), m[a..b]);
  }

  /**
    Dropping erasable characters from a woven text drops them from its pieces
    only: the sentinels stay whole.
  */
  lemma {:induction false} KeepWoven(lits: seq<string>, base: nat, m: seq<bool>)
    requires |lits| >= 1 && DropsErasable(Woven(lits, base), m)
    ensures Keep(Woven(lits, base), m) == Woven(KeptLits(lits, base, m), base)
    decreases |lits|
  {
    if |lits| > 1 {
      var b := |lits[0]| + |Sentinel(base)|;
      KeepWovenSplit(lits, base, m);
      KeepWoven(lits[1..], base + 1, m[b..]);
      KeptLitsCons(lits, base, m);
      WovenCons(KeptLits(lits, base, m), base);
    }
  }

  /** Two lists of pieces, piece by piece equal once squeezed. */
  predicate SameSqueeze(a: seq<string>, b: seq<string>)
    decreases |a|
  {
    |a| == |b| && (|a| == 0 || (Squeeze(a[0]) == Squeeze(b[0]) && SameSqueeze(a[1..], b[1..])))
  }

  lemma {:induction false} SameSqueezeAt(a: seq<string>, b: seq<string>, k: nat)
    requires SameSqueeze(a, b) && k < |a|
    ensures Squeeze(a[k]) == Squeeze(b[k])
    decreases k
  {
    if k > 0 {
      SameSqueezeAt(a[1..], b[1..], k - 1);
    }
  }

  lemma {:induction false} SameSqueezeTrans(a: seq<string>, b: seq<string>, c: seq<string>)
    requires SameSqueeze(a, b) && SameSqueeze(b, c)
    ensures SameSqueeze(a, c)
    decreases |a|
  {
    if |a| > 0 {
      SameSqueezeTrans(a[1..], b[1..], c[1..]);
    }
  }

  /** Each kept piece has the squeezed form of its original. */
  lemma {:induction false} KeepWovenSqueeze(lits: seq<string>, base: nat, m: seq<bool>)
    requires |lits| >= 1 && DropsErasable(Woven(lits, base), m)
    ensures SameSqueeze(KeptLits(lits, base, m), lits)
    decreases |lits|
  {
    var r := KeptLits(lits, base, m);
    if |lits| == 1 {
      KeepSqueeze(lits[0], m);
      assert r[1..] == [] && lits[1..] == [];
    } else {
      var a := |lits[0]|;
      var b := a + |Sentinel(base)|;
      KeepWovenSplit(lits, base, m);
      KeepWovenSqueeze(lits[1..], base + 1, m[b..]);
      KeptLitsCons(lits, base, m);
      KeepSqueeze(lits[0], m[..a]);
    }
  }

  /** Kept pieces of NUL-free pieces are NUL-free. */
  lemma {:induction false} KeepWovenNoNul(lits: seq<string>, base: nat, m: seq<bool>)
    requires |lits| >= 1 && DropsErasable(Woven(lits, base), m) && AllNoNul(lits)
    ensures AllNoNul(KeptLits(lits, base, m))
    decreases |lits|
  {
    var r := KeptLits(lits, base, m);
    if |lits| == 1 {
      KeepNoChar(lits[0], m, NUL);
    } else {
      var a := |lits[0]|;
      var b := a + |Sentinel(base)|;
      KeepWovenSplit(lits, base, m);
      AllNoNulTail(lits);
      KeepWovenNoNul(lits[1..], base + 1, m[b..]);
      KeptLitsCons(lits, base, m);
      KeepNoChar(lits[0], m[..a], NUL);
      KeptLitsNoNul(r, KeptLits(lits[1..], base + 1, m[b..]));
    }
  }

  lemma AllNoNulTail(lits: seq<string>)
    requires |lits| >= 1 && AllNoNul(lits)
    ensures AllNoNul(lits[1..]) && NoChar(lits[0], NUL)
  {
  }

  lemma KeptLitsCons(lits: seq<string>, base: nat, m: seq<bool>)
    requires |lits| >= 2 && |m| == |Woven(lits, base)|
    ensures var b := |lits[0]| + |Sentinel(base)|;
            var r := KeptLits(lits, base, m);
            r[0] == Keep(lits[0], m[..|lits[0]|]) && r[1..] == KeptLits(lits[1..], base + 1, m[b..])
  {
  }

  lemma KeptLitsNoNul(r: seq<string>, tail: seq<string>)
    requires |r| >= 1 && r[1..] == tail && NoChar(r[0], NUL) && AllNoNul(tail)
    ensures AllNoNul(r)
  {
    forall k | 1 <= k < |r|
      ensures NoChar(r[k], NUL)
    {
      assert r[k] == tail[k - 1];
    }
  }

  /** The pieces between the sentinels after steps 2 and 3. */
  function Rewritten(lits: seq<string>): (r: seq<string>)
    requires |lits| >= 1
    ensures |r| == |lits|
  {
    var w := Woven(lits, 0);
    var l1 := KeptLits(lits, 0, BoldMask(w, 0));
    var w1 := Woven(l1, 0);
    KeptLits(l1, 0, CollapseMask(w1, 0))
  }

  /**
    Steps 2 and 3 touch only the pieces between the sentinels, and there only
    stars and newlines: every piece keeps its squeezed form.
  */
  lemma RewriteWoven(lits: seq<string>)
    requires |lits| >= 1
    ensures Middle(Woven(lits, 0)) == Woven(Rewritten(lits), 0)
    ensures SameSqueeze(Rewritten(lits), lits)
    ensures AllNoNul(lits) ==> AllNoNul(Rewritten(lits))
  {
    var w := Woven(lits, 0);
    BoldIsKeep(w, 0);
    assert w[0..] == w;
    KeepWoven(lits, 0, BoldMask(w, 0));
    KeepWovenSqueeze(lits, 0, BoldMask(w, 0));
    if AllNoNul(lits) {
      KeepWovenNoNul(lits, 0, BoldMask(w, 0));
    }
    var l1 := KeptLits(lits, 0, BoldMask(w, 0));
    var w1 := Woven(l1, 0);
    assert BoldFix(w) == w1;
    CollapseIsKeep(w1, 0);
    assert w1[0..] == w1;
    KeepWoven(l1, 0, CollapseMask(w1, 0));
    KeepWovenSqueeze(l1, 0, CollapseMask(w1, 0));
    if AllNoNul(lits) {
      KeepWovenNoNul(l1, 0, CollapseMask(w1, 0));
    }
    SameSqueezeTrans(Rewritten(lits), l1, lits);
  }

  /**
    No piece between two blocks starts with `CODE_BLOCK_` once its stars and
    newlines are dropped; steps 2 and 3 cannot make such a piece.
  */
  predicate SqueezedGapsClean(lits: seq<string>) {
    forall k :: 0 < k < |lits| - 1 ==> !StartsWith(Squeeze(lits[k]), "CODE_BLOCK_")
  }

  lemma SqueezeKeepsPrefix(x: string)
    requires StartsWith(x, "CODE_BLOCK_")
    ensures StartsWith(Squeeze(x), "CODE_BLOCK_")
  {
    CodeBlockPlain();
    PlainPrefixSqueezed(x, "CODE_BLOCK_");
  }

  lemma CodeBlockPlain()
    ensures Plain("CODE_BLOCK_")
  {
  }

  /** A prefix with nothing erasable in it survives squeezing. */
  lemma PlainPrefixSqueezed(x: string, p: string)
    requires Plain(p) && StartsWith(x, p)
    ensures StartsWith(Squeeze(x), p)
  {
    assert x == p + x[|p|..];
    SqueezeAppend(p, x[|p|..]);
    SqueezePlain(p);
  }

  lemma SqueezedCleanIsClean(lits: seq<string>)
    ensures SqueezedGapsClean(lits) ==> GapsClean(lits)
  {
    forall k | 0 < k < |lits| - 1
      ensures StartsWith(lits[k], "CODE_BLOCK_") ==> StartsWith(Squeeze(lits[k]), "CODE_BLOCK_")
    {
      if StartsWith(lits[k], "CODE_BLOCK_") {
        SqueezeKeepsPrefix(lits[k]);
      }
    }
  }

  lemma RewrittenClean(lits: seq<string>)
    requires |lits| >= 1 && SqueezedGapsClean(lits)
    ensures GapsClean(Rewritten(lits))
  {
    RewriteWoven(lits);
    forall k | 0 < k < |lits| - 1
      ensures Squeeze(Rewritten(lits)[k]) == Squeeze(lits[k])
    {
      SameSqueezeAt(Rewritten(lits), lits, k);
    }
    SqueezedCleanIsClean(Rewritten(lits));
  }

  // ---------------------------------------------------------------------
  // Step 5
  // ---------------------------------------------------------------------

  /** After the opening marker: code, closing marker and text hold no opening marker. */
  lemma AfterOpenMarker(c: string, y: string)
    requires NoChar(c, NUL) && NoChar(y, NUL)
    ensures ReplaceAll(c + Renderer.CodeSpanEnd + y, Renderer.CodeSpanStart, "{{")
         == c + Renderer.CodeSpanEnd + y
  {
    var cs, ce := Renderer.CodeSpanStart, Renderer.CodeSpanEnd;
    assert cs == [NUL] + "CS" + [NUL] && ce == [NUL] + "CE" + [NUL];
    var tail := [NUL] + "CE" + [NUL] + y;
    assert c + ce + y == c + tail;
    ReplaceAllSkips(c, tail, cs, "{{");
    FramedUntouched("CE", "CS", y, "{{");
    LoneNul(y, "CS", "{{");
    assert [NUL] + "CE" + ([NUL] + y) == tail;
  }

  /** The first replacement of step 5 meets exactly the opening marker. */
  lemma OpenMarkerPass(x: string, c: string, y: string)
    requires NoChar(x, NUL) && NoChar(c, NUL) && NoChar(y, NUL)
    ensures ReplaceAll(x + Renderer.CodeSpanStart + c + Renderer.CodeSpanEnd + y, Renderer.CodeSpanStart, "{{")
         == x + "{{" + c + Renderer.CodeSpanEnd + y
  {
    var cs, ce := Renderer.CodeSpanStart, Renderer.CodeSpanEnd;
    var u := c + ce + y;
    assert cs[0] == NUL;
    AfterOpenMarker(c, y);
    HitOnce(x, cs, "{{", u);
    Regroup3(x, cs, c, ce, y);
    Regroup3(x, "{{", c, ce, y);
  }

  lemma Regroup3(x: string, a: string, c: string, e: string, y: string)
    ensures x + a + c + e + y == x + a + (c + e + y)
  {
  }

  /** The second replacement of step 5 meets exactly the closing marker. */
  lemma CloseMarkerPass(x: string, y: string)
    requires NoChar(x, NUL) && NoChar(y, NUL)
    ensures ReplaceAll(x + Renderer.CodeSpanEnd + y, Renderer.CodeSpanEnd, "}}") == x + "}}" + y
  {
    var ce := Renderer.CodeSpanEnd;
    assert x + ce + y == x + (ce + y);
    ReplaceAllSkips(x, ce + y, ce, "}}");
    ReplaceAllHit(y, ce, "}}");
    assert y + "" == y;
    ReplaceAllSkips(y, "", ce, "}}");
  }

  /** An inline code span between NUL-free text comes out as `{{code}}`. */
  lemma InlineRestoreSpan(x: string, t: string, y: string)
    requires NoChar(x, NUL) && NoChar(t, NUL) && NoChar(y, NUL)
    ensures InlineRestore(x + Renderer.CodeSpan(t) + y) == x + "{{" + Escape.CodeEach(t) + "}}" + y
  {
    var c := Escape.CodeEach(t);
    Escape.CodeEachNoNul(t);
    SpanPieces(x, Renderer.CodeSpan(t), y, c);
    InlineMarkersPass(x, c, y);
  }

  lemma SpanPieces(x: string, sp: string, y: string, c: string)
    requires sp == Renderer.CodeSpanStart + c + Renderer.CodeSpanEnd
    ensures x + sp + y == x + Renderer.CodeSpanStart + c + Renderer.CodeSpanEnd + y
  {
  }

  /** Both replacements of step 5 on text holding one pair of markers. */
  lemma InlineMarkersPass(x: string, c: string, y: string)
    requires NoChar(x, NUL) && NoChar(c, NUL) && NoChar(y, NUL)
    ensures InlineRestore(x + Renderer.CodeSpanStart + c + Renderer.CodeSpanEnd + y) == x + "{{" + c + "}}" + y
  {
    OpenMarkerPass(x, c, y);
    NoCharAppend(x, "{{", NUL);
    NoCharAppend(x + "{{", c, NUL);
    CloseMarkerPass(x + "{{" + c, y);
  }

  // ---------------------------------------------------------------------
  // Any number of inline code spans
  // ---------------------------------------------------------------------

  /** Text pieces with the rendering of one code span between each two. */
  function WithSpans(gaps: seq<string>, codes: seq<string>): string
    requires |gaps| == |codes| + 1
    decreases |codes|
  {
    if |codes| == 0 then gaps[0]
    else gaps[0] + Renderer.CodeSpan(codes[0]) + WithSpans(gaps[1..], codes[1..])
  }

  /** The same pieces with each code, escaped, between `{{` and `}}`. */
  function WithBraces(gaps: seq<string>, codes: seq<string>): string
    requires |gaps| == |codes| + 1
    decreases |codes|
  {
    if |codes| == 0 then gaps[0]
    else gaps[0] + "{{" + Escape.CodeEach(codes[0]) + "}}" + WithBraces(gaps[1..], codes[1..])
  }

  /** The positional marker restore copies a NUL-free prefix and carries on after it. */
  lemma {:induction false} InlineScanSkips(x: string, rest: string)
    requires NoChar(x, NUL)
    ensures InlineScan(x + rest) == x + InlineScan(rest)
    decreases |x|
  {
    if |x| > 0 {
      InlineScanSkips(x[1..], rest);
      InlineScanHead(x, rest, InlineScan(rest));
    } else {
      assert x + rest == rest;
    }
  }

  lemma InlineScanHead(x: string, rest: string, t: string)
    requires |x| > 0 && x[0] != NUL && InlineScan(x[1..] + rest) == x[1..] + t
    ensures InlineScan(x + rest) == x + t
  {
    ConsSplit(x, rest);
    InlineScanCons(x[0], x[1..] + rest);
    ConsSplit(x, t);
  }

  lemma InlineScanCons(c: char, u: string)
    requires c != NUL
    ensures InlineScan([c] + u) == [c] + InlineScan(u)
  {
    var s := [c] + u;
    InlineScanChar(s);
    assert s[1..] == u;
  }

  /** Text without NUL holds no marker and passes the positional restore unchanged. */
  lemma InlineScanPlain(s: string)
    requires NoChar(s, NUL)
    ensures InlineScan(s) == s
  {
    InlineScanSkips(s, "");
    assert s + "" == s;
  }

  /** A character other than NUL at the front is copied. */
  lemma InlineScanChar(s: string)
    requires |s| > 0 && s[0] != NUL
    ensures InlineScan(s) == [s[0]] + InlineScan(s[1..])
  {
    MarkerHead(s);
  }

  /** A marker at the front becomes its braces, and reading resumes after it. */
  lemma InlineScanMarker(m: string, rest: string)
    requires m == Renderer.CodeSpanStart || m == Renderer.CodeSpanEnd
    ensures InlineScan(m + rest) == (if m == Renderer.CodeSpanStart then "{{" else "}}") + InlineScan(rest)
  {
    var s := m + rest;
    assert s[..4] == m && s[4..] == rest;
    assert Renderer.CodeSpanEnd[2] != Renderer.CodeSpanStart[2];
  }

  /**
    The positional marker restore turns every rendered code span between
    NUL-free text into `{{`, the escaped code and `}}`, however many spans
    the text holds.
  */
  lemma {:induction false} InlineScanSpans(gaps: seq<string>, codes: seq<string>)
    requires |gaps| == |codes| + 1 && AllNoNul(gaps) && AllNoNul(codes)
    ensures InlineScan(WithSpans(gaps, codes)) == WithBraces(gaps, codes)
    decreases |codes|
  {
    if |codes| > 0 {
      var w := WithSpans(gaps[1..], codes[1..]);
      Escape.CodeEachNoNul(codes[0]);
      SpansCons(gaps, codes);
      InlineSpanStep(gaps[0], Escape.CodeEach(codes[0]), w);
      assert AllNoNul(gaps[1..]) && AllNoNul(codes[1..]);
      InlineScanSpans(gaps[1..], codes[1..]);
    } else {
      InlineScanPlain(gaps[0]);
    }
  }

  lemma SpansCons(gaps: seq<string>, codes: seq<string>)
    requires |gaps| == |codes| + 1 && |codes| > 0
    ensures WithSpans(gaps, codes)
         == gaps[0] + (Renderer.CodeSpanStart + (Escape.CodeEach(codes[0])
            + (Renderer.CodeSpanEnd + WithSpans(gaps[1..], codes[1..]))))
  {
  }

  /** One span between a NUL-free piece and the rest of the text. */
  lemma InlineSpanStep(g: string, c: string, w: string)
    requires NoChar(g, NUL) && NoChar(c, NUL)
    ensures InlineScan(g + (Renderer.CodeSpanStart + (c + (Renderer.CodeSpanEnd + w))))
         == g + "{{" + c + "}}" + InlineScan(w)
  {
    var cs := Renderer.CodeSpanStart;
    var t := c + (Renderer.CodeSpanEnd + w);
    InlineScanSkips(g, cs + t);
    InlineScanMarker(cs, t);
    InlineSpanClose(c, w);
    BracesRegroup(g, c, InlineScan(w));
  }

  lemma BracesRegroup(g: string, c: string, r: string)
    ensures g + ("{{" + (c + ("}}" + r))) == g + "{{" + c + "}}" + r
  {
  }

  /** The code of a span and its closing marker. */
  lemma InlineSpanClose(c: string, w: string)
    requires NoChar(c, NUL)
    ensures InlineScan(c + (Renderer.CodeSpanEnd + w)) == c + ("}}" + InlineScan(w))
  {
    InlineScanSkips(c, Renderer.CodeSpanEnd + w);
    InlineScanMarker(Renderer.CodeSpanEnd, w);
  }

  /**
    Step 5 as written on two spans with `CS` between them: the opening
    replacement meets the NUL closing the first span, `CS` and the NUL
    opening the second, so the first `}}` is lost and two NULs remain.
  */
  lemma InlineRestoreTwoSpans(gaps: seq<string>, codes: seq<string>, y: string)
    requires gaps == ["", "CS", y] && codes == ["a", "b"] && NoChar(y, NUL)
    ensures InlineRestore(WithSpans(gaps, codes)) == "{{a\0CE{{CS\0b}}" + y
    ensures WithBraces(gaps, codes) == "{{a}}CS{{b}}" + y
  {
    TwoSpansText(gaps, codes, y);
    OpenPassTwo(y);
    ClosePassTwo(y);
    TwoSpansResult(y);
  }

  /** The two-span text, nested as the replacements meet it, and its intended form. */
  lemma TwoSpansText(gaps: seq<string>, codes: seq<string>, y: string)
    requires gaps == ["", "CS", y] && codes == ["a", "b"]
    ensures WithSpans(gaps, codes) == TwoSpansRaw(y)
    ensures WithBraces(gaps, codes) == "{{a}}CS{{b}}" + y
  {
    SpansTwo(gaps, codes);
    BracesTwo(gaps, codes);
    CodeLetters("a", "b");
    TwoSpansRegroup(y);
  }

  /** Two spans written out, nested to the right. */
  lemma SpansTwo(gaps: seq<string>, codes: seq<string>)
    requires |gaps| == 3 && |codes| == 2
    ensures WithSpans(gaps, codes)
         == gaps[0] + (Renderer.CodeSpanStart + (Escape.CodeEach(codes[0]) + (Renderer.CodeSpanEnd
            + (gaps[1] + (Renderer.CodeSpanStart + (Escape.CodeEach(codes[1]) + (Renderer.CodeSpanEnd + gaps[2])))))))
  {
    SpansCons(gaps, codes);
    SpansCons(gaps[1..], codes[1..]);
    assert WithSpans(gaps[2..], codes[2..]) == gaps[2];
  }

  /** Two spans in braces, written out. */
  lemma BracesTwo(gaps: seq<string>, codes: seq<string>)
    requires |gaps| == 3 && |codes| == 2
    ensures WithBraces(gaps, codes)
         == gaps[0] + "{{" + Escape.CodeEach(codes[0]) + "}}"
            + (gaps[1] + "{{" + Escape.CodeEach(codes[1]) + "}}" + gaps[2])
  {
    assert WithBraces(gaps[2..], codes[2..]) == gaps[2];
  }

  /** Letters need no escaping in code. */
  lemma CodeLetters(a: string, b: string)
    requires a == "a" && b == "b"
    ensures Escape.CodeEach(a) == a && Escape.CodeEach(b) == b
  {
    assert a[1..] == "" && b[1..] == "";
  }

  /** The rendered two-span text: the first span, `CS`, the second span, `y`. */
  function TwoSpansRaw(y: string): string {
    var n, cs, ce := [NUL], Renderer.CodeSpanStart, Renderer.CodeSpanEnd;
    cs + ("a" + (n + ("CE" + (cs + ("CS" + (n + ("b" + (ce + y))))))))
  }

  lemma TwoSpansRegroup(y: string)
    ensures "" + (Renderer.CodeSpanStart + ("a" + (Renderer.CodeSpanEnd
              + ("CS" + (Renderer.CodeSpanStart + ("b" + (Renderer.CodeSpanEnd + y)))))))
         == TwoSpansRaw(y)
  {
  }

  /** What the opening replacement leaves of the two-span text. */
  function TwoSpansOpened(y: string): string {
    var n, ce := [NUL], Renderer.CodeSpanEnd;
    "{{" + ("a" + (n + ("CE" + ("{{" + ("CS" + (n + ("b" + (ce + y))))))))
  }

  /** The opening replacement on the two-span text. */
  lemma OpenPassTwo(y: string)
    requires NoChar(y, NUL)
    ensures ReplaceAll(TwoSpansRaw(y), Renderer.CodeSpanStart, "{{") == TwoSpansOpened(y)
  {
    var n, cs, ce := [NUL], Renderer.CodeSpanStart, Renderer.CodeSpanEnd;
    var t := n + ("b" + (ce + y));
    var w := cs + ("CS" + t);
    OpenPassSecond(y, t);
    var u := n + ("CE" + w);
    assert !StartsWith(u, cs) by { assert u[2] != cs[2]; }
    ReplaceAllMiss(u, cs, "{{");
    assert u[1..] == "CE" + w;
    ReplaceAllSkips("CE", w, cs, "{{");
    ReplaceAllSkips("a", u, cs, "{{");
    ReplaceAllHit("a" + u, cs, "{{");
  }

  /** The false opening marker: the closing NUL of the first span, `CS`, the opening NUL of the second. */
  lemma OpenPassSecond(y: string, t: string)
    requires t == [NUL] + ("b" + (Renderer.CodeSpanEnd + y)) && NoChar(y, NUL)
    ensures ReplaceAll(Renderer.CodeSpanStart + ("CS" + t), Renderer.CodeSpanStart, "{{") == "{{" + ("CS" + t)
  {
    var cs := Renderer.CodeSpanStart;
    BetweenUntouched(y, t);
    ReplaceAllSkips("CS", t, cs, "{{");
    ReplaceAllHit("CS" + t, cs, "{{");
  }

  /** The rest of the second span holds no opening marker. */
  lemma BetweenUntouched(y: string, t: string)
    requires t == [NUL] + ("b" + (Renderer.CodeSpanEnd + y)) && NoChar(y, NUL)
    ensures ReplaceAll(t, Renderer.CodeSpanStart, "{{") == t
  {
    var n := [NUL];
    LoneNul(y, "CS", "{{");
    assert n + "b" + n + "CE" + n + y == t;
    TwoFramedUntouched("b", "CE", y, "CS", "{{");
    assert n + "CS" + n == Renderer.CodeSpanStart;
  }

  /** The closing replacement on what the opening one left. */
  lemma ClosePassTwo(y: string)
    requires NoChar(y, NUL)
    ensures ReplaceAll(TwoSpansOpened(y), Renderer.CodeSpanEnd, "}}")
         == "{{" + ("a" + ([NUL] + ("CE" + ("{{" + ("CS" + ([NUL] + ("b" + ("}}" + y))))))))
  {
    var n, ce := [NUL], Renderer.CodeSpanEnd;
    var v := n + ("b" + (ce + y));
    CloseLast(y, v);
    var x := "{{" + ("CS" + v);
    ReplaceAllSkips("CS", v, ce, "}}");
    ReplaceAllSkips("{{", "CS" + v, ce, "}}");
    ReplaceAllSkips("CE", x, ce, "}}");
    var u := n + ("CE" + x);
    assert !StartsWith(u, ce) by { assert u[3] != ce[3]; }
    ReplaceAllMiss(u, ce, "}}");
    assert u[1..] == "CE" + x;
    ReplaceAllSkips("a", u, ce, "}}");
    ReplaceAllSkips("{{", "a" + u, ce, "}}");
  }

  /** The real closing marker of the second span. */
  lemma CloseLast(y: string, v: string)
    requires v == [NUL] + ("b" + (Renderer.CodeSpanEnd + y)) && NoChar(y, NUL)
    ensures ReplaceAll(v, Renderer.CodeSpanEnd, "}}") == [NUL] + ("b" + ("}}" + y))
  {
    var ce := Renderer.CodeSpanEnd;
    ReplaceAbsent(y, ce, "}}");
    ReplaceAllHit(y, ce, "}}");
    ReplaceAllSkips("b", ce + y, ce, "}}");
    assert !StartsWith(v, ce) by { assert v[1] != ce[1]; }
    ReplaceAllMiss(v, ce, "}}");
    assert v[1..] == "b" + (ce + y);
  }

  /** The nested result read as one text. */
  lemma TwoSpansResult(y: string)
    ensures "{{" + ("a" + ([NUL] + ("CE" + ("{{" + ("CS" + ([NUL] + ("b" + ("}}" + y))))))))
         == "{{a\0CE{{CS\0b}}" + y
  {
  }

  // ---------------------------------------------------------------------
  // The whole post-processing
  // ---------------------------------------------------------------------

  /**
    For rendered text without NUL (so without inline-code markers) whose
    pieces between blocks do not start, squeezed, with `CODE_BLOCK_`: every
    `{code}` block comes back verbatim and in place, the text between blocks
    differs from the input only in stars and newlines, and the result is that
    text stripped, with one final newline.
  */
  lemma PostProcessKeepsBlocks(raw: string)
    requires NoChar(raw, NUL) && SqueezedGapsClean(Scan(raw, 0).0)
    ensures var (lits, blocks) := Scan(raw, 0);
            PostProcess(raw) == Finalize(Splice(Rewritten(lits), blocks))
    ensures SameSqueeze(Rewritten(Scan(raw, 0).0), Scan(raw, 0).0)
  {
    var (lits, blocks) := Scan(raw, 0);
    assert raw[0..] == raw;
    SpliceNoNul(lits, blocks);
    RewriteWoven(lits);
    RewrittenClean(lits);
    RestoreWoven(Rewritten(lits), blocks);
    SpliceNoNulBack(Rewritten(lits), blocks);
  }

  /** The positional restore needs no condition on the pieces between blocks. */
  lemma PostProcessPositionalKeepsBlocks(raw: string)
    requires NoChar(raw, NUL)
    ensures var (lits, blocks) := Scan(raw, 0);
            PostProcessPositional(raw) == Finalize(Splice(Rewritten(lits), blocks))
    ensures SameSqueeze(Rewritten(Scan(raw, 0).0), Scan(raw, 0).0)
  {
    var (lits, blocks) := Scan(raw, 0);
    assert raw[0..] == raw;
    SpliceNoNul(lits, blocks);
    RewriteWoven(lits);
    AllNoNulMarked(Rewritten(lits));
    ScanWoven(Rewritten(lits), blocks, 0);
    assert blocks[0..] == blocks;
    SpliceNoNulBack(Rewritten(lits), blocks);
    InlineScanPlain(Splice(Rewritten(lits), blocks));
  }

  lemma {:induction false} SpliceNoNulBack(lits: seq<string>, blocks: seq<string>)
    requires |lits| == |blocks| + 1 && AllNoNul(lits) && AllNoNul(blocks)
    ensures NoChar(Splice(lits, blocks), NUL)
    decreases |blocks|
  {
    if |blocks| > 0 {
      assert AllNoNul(lits[1..]) && AllNoNul(blocks[1..]);
      SpliceNoNulBack(lits[1..], blocks[1..]);
      NoCharAppend(lits[0], blocks[0], NUL);
      NoCharAppend(lits[0] + blocks[0], Splice(lits[1..], blocks[1..]), NUL);
    }
  }
}
