/**
  Steps 2 and 3 of the post-processing: the residual bold fix
  (`\*\*(.+?)\*\*` replaced by `*$1*`) and the collapse of three or more
  newlines (`\n{3,}` replaced by two). Both only ever delete characters,
  which is stated through keep-masks.
*/
module Rewrite {
  import opened Wrappers
  import opened Strings

  /** The characters a regular-expression `.` does not match (no DOTALL, no UNIX_LINES). */
  predicate IsLineTerminator(c: char) {
    c == '\n' || c == '\r' || c == '\U{85}' || c == '\U{2028}' || c == '\U{2029}'
  }

  /** The characters the two rewrites may delete. */
  predicate Erasable(c: char) {
    c == '*' || c == '\n'
  }

  /** The characters of `s` whose mask entry is true, in order. */
  function Keep(s: string, m: seq<bool>): (r: string)
    requires |m| == |s|
    ensures |r| <= |s|
    decreases |s|
  {
    if |s| == 0 then ""
    else (if m[0] then [s[0]] else "") + Keep(s[1..], m[1..])
  }

  /** A mask for `s` that drops only erasable characters. */
  predicate DropsErasable(s: string, m: seq<bool>) {
    |m| == |s| && forall i :: 0 <= i < |s| ==> KeptOrErasable(s, m, i)
  }

  /** Position `i` is kept by the mask or holds an erasable character. */
  predicate KeptOrErasable(s: string, m: seq<bool>, i: int) {
    0 <= i < |s| && i < |m| && (m[i] || Erasable(s[i]))
  }

  /** The mask `m` for `s[pos..]` drops no character other than `c`. */
  predicate DropsOnly(s: string, pos: nat, m: seq<bool>, c: char) {
    pos <= |s| && |m| == |s| - pos && MaskDrops(s, pos, m, c)
  }

  predicate MaskDrops(s: string, pos: nat, m: seq<bool>, c: char) {
    forall i :: 0 <= i < |m| ==> KeptOrIs(s, pos, m, i, c)
  }

  /** Entry `i` of the mask for `s[pos..]` keeps its character, or that character is `c`. */
  predicate KeptOrIs(s: string, pos: nat, m: seq<bool>, i: int, c: char) {
    0 <= i < |m| && pos + i < |s| && (m[i] || s[pos + i] == c)
  }

  lemma MaskDropsJoin(s: string, pos: nat, ma: seq<bool>, mb: seq<bool>, c: char)
    requires MaskDrops(s, pos, ma, c) && MaskDrops(s, pos + |ma|, mb, c)
    ensures MaskDrops(s, pos, ma + mb, c)
  {
    forall i | 0 <= i < |ma + mb|
      ensures KeptOrIs(s, pos, ma + mb, i, c)
    {
      if i < |ma| {
        assert KeptOrIs(s, pos, ma, i, c);
      } else {
        assert KeptOrIs(s, pos + |ma|, mb, i - |ma|, c);
      }
    }
  }

  /** Masks that keep everything, nothing, or the first two characters. */
  function Trues(n: nat): (m: seq<bool>)
    ensures |m| == n && forall j :: 0 <= j < n ==> m[j]
  {
    seq(n, _ => true)
  }

  function Falses(n: nat): (m: seq<bool>)
    ensures |m| == n && forall j :: 0 <= j < n ==> !m[j]
  {
    seq(n, _ => false)
  }

  function RunMask(n: nat): (m: seq<bool>)
    ensures |m| == n && forall j :: 0 <= j < n ==> (m[j] <==> j < 2)
  {
    seq(n, j => j < 2)
  }

  /** `s` without its erasable characters. */
  function Squeeze(s: string): string
    decreases |s|
  {
    if |s| == 0 then ""
    else (if Erasable(s[0]) then "" else [s[0]]) + Squeeze(s[1..])
  }

  lemma {:induction false} KeepAppend(a: string, b: string, ma: seq<bool>, mb: seq<bool>)
    requires |ma| == |a| && |mb| == |b|
    ensures Keep(a + b, ma + mb) == Keep(a, ma) + Keep(b, mb)
    decreases |a|
  {
    if |a| == 0 {
      assert a + b == b && ma + mb == mb;
    } else {
      var s, m := a + b, ma + mb;
      assert s[0] == a[0] && m[0] == ma[0];
      assert s[1..] == a[1..] + b;
      assert m[1..] == ma[1..] + mb;
      KeepAppend(a[1..], b, ma[1..], mb);
      assert Keep(s, m) == (if m[0] then [s[0]] else "") + Keep(s[1..], m[1..]);
    }
  }

  lemma {:induction false} KeepAll(s: string)
    ensures Keep(s, Trues(|s|)) == s
    decreases |s|
  {
    if |s| > 0 {
      assert Trues(|s|)[1..] == Trues(|s| - 1);
      KeepAll(s[1..]);
      assert s == [s[0]] + s[1..];
    }
  }

  lemma {:induction false} SqueezeAppend(a: string, b: string)
    ensures Squeeze(a + b) == Squeeze(a) + Squeeze(b)
    decreases |a|
  {
    if |a| == 0 {
      assert a + b == b;
    } else {
      assert (a + b)[1..] == a[1..] + b;
      SqueezeAppend(a[1..], b);
    }
  }

  /** Dropping erasable characters leaves the squeezed text as it was. */
  lemma {:induction false} KeepSqueeze(s: string, m: seq<bool>)
    requires DropsErasable(s, m)
    ensures Squeeze(Keep(s, m)) == Squeeze(s)
    decreases |s|
  {
    if |s| > 0 {
      assert DropsErasable(s[1..], m[1..]) by {
        forall i | 0 <= i < |s[1..]|
          ensures KeptOrErasable(s[1..], m[1..], i)
        {
          assert KeptOrErasable(s, m, i + 1);
        }
      }
      KeepSqueeze(s[1..], m[1..]);
      if m[0] {
        SqueezeAppend([s[0]], Keep(s[1..], m[1..]));
        assert [s[0]][1..] == "";
      } else {
        assert KeptOrErasable(s, m, 0);
        assert Keep(s, m) == Keep(s[1..], m[1..]);
      }
    }
  }

  // ---------------------------------------------------------------------
  // Step 2: residual bold
  // ---------------------------------------------------------------------

  predicate PairAt(s: string, k: nat) {
    k + 2 <= |s| && s[k] == '*' && s[k + 1] == '*'
  }

  predicate TerminatorAt(s: string, j: int) {
    0 <= j < |s| && IsLineTerminator(s[j])
  }

  /**
    The lazy group of `\*\*(.+?)\*\*`: the group has reached `k` (its last
    character so far is `s[k - 1]`); the result is the first `k' >= k` where
    `**` follows, provided no line terminator lies in the group.
  */
  function BoldClose(s: string, k: nat): (r: Option<nat>)
    requires 1 <= k <= |s|
    ensures r.Some? ==> k <= r.value && PairAt(s, r.value)
    ensures r.Some? ==> forall j :: k - 1 <= j < r.value ==> !TerminatorAt(s, j)
    ensures r.Some? ==> forall j :: k <= j < r.value ==> !PairAt(s, j)
    ensures r.None? ==> forall e :: k <= e && PairAt(s, e) ==>
                          exists j :: k - 1 <= j < e && TerminatorAt(s, j)
    decreases |s| - k
  {
    if IsLineTerminator(s[k - 1]) then assert TerminatorAt(s, k - 1); None
    else if PairAt(s, k) then Some(k)
    else if k == |s| then None
    else BoldClose(s, k + 1)
  }

  /** The end of the group of a bold match starting at `i`, if one starts there. */
  function BoldAt(s: string, i: nat): (r: Option<nat>)
    requires i <= |s|
    ensures r.Some? ==> PairAt(s, i) && i + 3 <= r.value && PairAt(s, r.value)
  {
    if PairAt(s, i) && i + 3 <= |s| then BoldClose(s, i + 3) else None
  }

  /** `Matcher.replaceAll("*$1*")` from `pos`: each match `**g**` becomes `*g*`. */
  function BoldFrom(s: string, pos: nat): (r: string)
    requires pos <= |s|
    decreases |s| - pos
  {
    if pos == |s| then ""
    else match BoldAt(s, pos)
      case Some(e) => "*" + s[pos + 2..e] + "*" + BoldFrom(s, e + 2)
      case None => [s[pos]] + BoldFrom(s, pos + 1)
  }

  /** The bold fix-up of the whole text. */
  function BoldFix(s: string): (r: string)
    ensures DropsOnly(s, 0, BoldMask(s, 0), '*') && r == Keep(s, BoldMask(s, 0))
    ensures (forall k :: 0 <= k < |s| ==> !PairAt(s, k)) ==> r == s
  {
    BoldIsKeep(s, 0);
    BoldUntouched(s);
    assert s[0..] == s;
    BoldFrom(s, 0)
  }

  lemma BoldUntouched(s: string)
    ensures (forall k :: 0 <= k < |s| ==> !PairAt(s, k)) ==> BoldFrom(s, 0) == s
  {
    if forall k :: 0 <= k < |s| ==> !PairAt(s, k) {
      BoldFixNoPair(s, 0);
    }
  }

  /** Which characters of `s[pos..]` the bold fix keeps: all but the outer star of each pair. */
  function BoldMask(s: string, pos: nat): (m: seq<bool>)
    requires pos <= |s|
    ensures |m| == |s| - pos
    decreases |s| - pos
  {
    if pos == |s| then []
    else match BoldAt(s, pos)
      case Some(e) => PairMask(e - pos - 2) + BoldMask(s, e + 2)
      case None => [true] + BoldMask(s, pos + 1)
  }

  /** The bold fix deletes one star of each opening pair and one of each closing pair, nothing else. */
  lemma BoldIsKeep(s: string, pos: nat)
    requires pos <= |s|
    ensures DropsOnly(s, pos, BoldMask(s, pos), '*')
    ensures DropsErasable(s[pos..], BoldMask(s, pos))
    ensures BoldFrom(s, pos) == Keep(s[pos..], BoldMask(s, pos))
  {
    BoldKeeps(s, pos);
    BoldDropsStars(s, pos);
  }

  lemma {:induction false} BoldKeeps(s: string, pos: nat)
    requires pos <= |s|
    ensures DropsErasable(s[pos..], BoldMask(s, pos))
    ensures BoldFrom(s, pos) == Keep(s[pos..], BoldMask(s, pos))
    decreases |s| - pos
  {
    if pos < |s| {
      match BoldAt(s, pos)
      case Some(e) =>
        BoldKeeps(s, e + 2);
        BoldMatchKeep(s, pos, e);
      case None =>
        BoldKeeps(s, pos + 1);
        BoldCharKeep(s, pos);
    }
  }

  /** Every character the bold mask drops is a star. */
  lemma {:induction false} BoldDropsStars(s: string, pos: nat)
    requires pos <= |s|
    ensures DropsOnly(s, pos, BoldMask(s, pos), '*')
    decreases |s| - pos
  {
    if pos < |s| {
      match BoldAt(s, pos)
      case Some(e) =>
        BoldDropsStars(s, e + 2);
        BoldDropsMatch(s, pos, e);
      case None =>
        BoldDropsStars(s, pos + 1);
        BoldDropsChar(s, pos);
    }
  }

  lemma BoldDropsMatch(s: string, pos: nat, e: nat)
    requires pos < |s| && BoldAt(s, pos) == Some(e)
    requires e + 2 <= |s| && DropsOnly(s, e + 2, BoldMask(s, e + 2), '*')
    ensures DropsOnly(s, pos, BoldMask(s, pos), '*')
  {
    BoldMaskMatch(s, pos, e);
    PairStars(s, pos, e);
    MaskDropsJoin(s, pos, PairMask(e - pos - 2), BoldMask(s, e + 2), '*');
  }

  lemma BoldDropsChar(s: string, pos: nat)
    requires pos < |s| && BoldAt(s, pos).None?
    requires DropsOnly(s, pos + 1, BoldMask(s, pos + 1), '*')
    ensures DropsOnly(s, pos, BoldMask(s, pos), '*')
  {
    BoldMaskChar(s, pos);
    assert KeptOrIs(s, pos, [true], 0, '*');
    MaskDropsJoin(s, pos, [true], BoldMask(s, pos + 1), '*');
  }

  /** The pair mask of a match drops its first and its last character, both stars. */
  lemma PairStars(s: string, pos: nat, e: nat)
    requires pos + 3 <= e && e + 2 <= |s| && PairAt(s, pos) && PairAt(s, e)
    ensures MaskDrops(s, pos, PairMask(e - pos - 2), '*')
  {
    var m := PairMask(e - pos - 2);
    forall i | 0 <= i < |m|
      ensures KeptOrIs(s, pos, m, i, '*')
    {
      if 0 < i < |m| - 1 {
        assert m[i] == Trues(e - pos)[i - 1];
      }
    }
  }

  lemma BoldMaskChar(s: string, pos: nat)
    requires pos < |s| && BoldAt(s, pos).None?
    ensures BoldMask(s, pos) == [true] + BoldMask(s, pos + 1)
  {
  }

  /** No match at `pos`: its character is kept. */
  lemma BoldCharKeep(s: string, pos: nat)
    requires pos < |s| && BoldAt(s, pos).None?
    requires DropsErasable(s[pos + 1..], BoldMask(s, pos + 1))
    requires BoldFrom(s, pos + 1) == Keep(s[pos + 1..], BoldMask(s, pos + 1))
    ensures DropsErasable(s[pos..], BoldMask(s, pos))
    ensures BoldFrom(s, pos) == Keep(s[pos..], BoldMask(s, pos))
  {
    OneKept(s, pos);
    RunJoin(s, pos, pos + 1, BoldMask(s, pos), [true], BoldMask(s, pos + 1), BoldFrom(s, pos), [s[pos]], BoldFrom(s, pos + 1));
  }

  lemma OneKept(s: string, pos: nat)
    requires pos < |s|
    ensures DropsErasable(s[pos..pos + 1], [true]) && Keep(s[pos..pos + 1], [true]) == [s[pos]]
  {
    assert KeptOrErasable(s[pos..pos + 1], [true], 0);
  }

  /** One match: the kept characters are `*`, the group and `*`, followed by the rest. */
  lemma BoldMatchKeep(s: string, pos: nat, e: nat)
    requires pos < |s| && BoldAt(s, pos) == Some(e)
    requires DropsErasable(s[e + 2..], BoldMask(s, e + 2))
    requires BoldFrom(s, e + 2) == Keep(s[e + 2..], BoldMask(s, e + 2))
    ensures DropsErasable(s[pos..], BoldMask(s, pos))
    ensures BoldFrom(s, pos) == Keep(s[pos..], BoldMask(s, pos))
  {
    var g := s[pos + 2..e];
    BoldUnfoldMatch(s, pos, e);
    MatchKept(s, pos, e);
    RunJoin(s, pos, e + 2, BoldMask(s, pos), PairMask(|g|), BoldMask(s, e + 2), BoldFrom(s, pos), "*" + g + "*", BoldFrom(s, e + 2));
  }

  lemma BoldUnfoldMatch(s: string, pos: nat, e: nat)
    requires pos < |s| && BoldAt(s, pos) == Some(e)
    ensures pos + 3 <= e && e + 2 <= |s|
    ensures BoldMask(s, pos) == PairMask(|s[pos + 2..e]|) + BoldMask(s, e + 2)
    ensures BoldFrom(s, pos) == "*" + s[pos + 2..e] + "*" + BoldFrom(s, e + 2)
  {
    BoldMaskMatch(s, pos, e);
    BoldFromMatch(s, pos, e);
  }

  lemma BoldMaskMatch(s: string, pos: nat, e: nat)
    requires pos < |s| && BoldAt(s, pos) == Some(e) && e + 2 <= |s|
    ensures BoldMask(s, pos) == PairMask(e - pos - 2) + BoldMask(s, e + 2)
  {
  }

  lemma BoldFromMatch(s: string, pos: nat, e: nat)
    requires pos < |s| && BoldAt(s, pos) == Some(e) && pos + 2 <= e + 2 <= |s|
    ensures BoldFrom(s, pos) == "*" + s[pos + 2..e] + "*" + BoldFrom(s, e + 2)
  {
  }

  /** The characters of one match that the mask keeps. */
  lemma MatchKept(s: string, pos: nat, e: nat)
    requires pos + 3 <= e && e + 2 <= |s| && PairAt(s, pos) && PairAt(s, e)
    ensures DropsErasable(s[pos..e + 2], PairMask(|s[pos + 2..e]|))
    ensures Keep(s[pos..e + 2], PairMask(|s[pos + 2..e]|)) == "*" + s[pos + 2..e] + "*"
  {
    MatchHead(s, pos, e);
    PairDrops(s[pos..e + 2], s[pos + 2..e]);
  }

  lemma MatchHead(s: string, pos: nat, e: nat)
    requires pos + 3 <= e && e + 2 <= |s| && PairAt(s, pos) && PairAt(s, e)
    ensures s[pos..e + 2] == "**" + s[pos + 2..e] + "**"
  {
  }

  /** The mask of one match whose group has length `n`: the outermost two stars go. */
  function PairMask(n: nat): seq<bool> {
    [false] + Trues(n + 2) + [false]
  }

  /** Dropping the outer star of each pair turns `**g**` into `*g*`. */
  lemma PairDrops(h: string, g: string)
    requires h == "**" + g + "**"
    ensures DropsErasable(h, PairMask(|g|))
    ensures Keep(h, PairMask(|g|)) == "*" + g + "*"
  {
    var inner := "*" + g + "*";
    var t := Trues(|inner|);
    assert h == "*" + (inner + "*");
    assert PairMask(|g|) == [false] + (t + [false]);
    assert DropsErasable(inner, t);
    assert DropsErasable("*", [false]);
    KeepAll(inner);
    assert Keep("*", [false]) == "";
    KeepConcat(inner + "*", t + [false], inner, "*", t, [false]);
    KeepConcat(h, PairMask(|g|), "*", inner + "*", [false], t + [false]);
  }

  lemma MaskAppendDrops(a: string, b: string, ma: seq<bool>, mb: seq<bool>)
    requires DropsErasable(a, ma) && DropsErasable(b, mb)
    ensures DropsErasable(a + b, ma + mb)
  {
    forall i | 0 <= i < |a + b|
      ensures KeptOrErasable(a + b, ma + mb, i)
    {
      if i >= |a| {
        assert KeptOrErasable(b, mb, i - |a|);
        assert (ma + mb)[i] == mb[i - |a|];
        assert (a + b)[i] == b[i - |a|];
      } else {
        assert KeptOrErasable(a, ma, i);
        assert (ma + mb)[i] == ma[i];
        assert (a + b)[i] == a[i];
      }
    }
  }

  /** Without a `**` anywhere, the bold fix changes nothing. */
  lemma {:induction false} BoldFixNoPair(s: string, pos: nat)
    requires pos <= |s|
    requires forall k :: pos <= k < |s| ==> !PairAt(s, k)
    ensures BoldFrom(s, pos) == s[pos..]
    decreases |s| - pos
  {
    if pos < |s| {
      BoldFixNoPair(s, pos + 1);
      assert s[pos..] == [s[pos]] + s[pos + 1..];
    }
  }

  /** The nominal case: a bold pair on one line loses one star on each side. */
  lemma BoldFixExample(s: string)
    requires s == "**bold text**"
    ensures BoldFix(s) == "*" + s[2..11] + "*"
  {
    assert BoldClose(s, 3) == Some(11) by {
      assert forall k :: 3 <= k < 11 ==> GroupGrows(s, k);
      BoldCloseRun(s, 3, 11);
    }
    assert BoldAt(s, 0) == Some(11);
    assert BoldFrom(s, 13) == "";
  }

  /** The lazy group can grow past `j`: `s[j - 1]` is no terminator and no `**` starts at `j`. */
  predicate GroupGrows(s: string, j: nat) {
    1 <= j <= |s| && !PairAt(s, j) && !IsLineTerminator(s[j - 1])
  }

  /** Stepping the lazy group over characters that neither end a line nor start `**`. */
  lemma {:induction false} BoldCloseRun(s: string, k: nat, e: nat)
    requires 1 <= k <= e <= |s|
    requires forall j :: k <= j < e ==> GroupGrows(s, j)
    ensures BoldClose(s, k) == BoldClose(s, e)
    decreases e - k
  {
    if k < e {
      assert GroupGrows(s, k);
      BoldCloseRun(s, k + 1, e);
    }
  }

  /**
    A depth-two bullet prefix `** ` is not read as bold when the closing
    stars are on the next line, since the group cannot cross a newline.
  */
  lemma BoldFixKeepsNestedBullets()
    ensures BoldFix("** a\n** b") == "** a\n** b"
  {
    var s := "** a\n** b";
    NestedNoBoldAt0(s);
    NestedTail(s);
    BoldFixNoPair1(s);
    BoldCharStep(s, 0);
  }

  /** A character where no match starts is copied over. */
  lemma BoldCharStep(s: string, pos: nat)
    requires pos < |s| && BoldAt(s, pos).None? && BoldFrom(s, pos + 1) == s[pos + 1..]
    ensures BoldFrom(s, pos) == s[pos..]
  {
    assert s[pos..] == [s[pos]] + s[pos + 1..];
  }

  /** The first `**` has no closing pair before the newline. */
  lemma NestedNoBoldAt0(s: string)
    requires s == "** a\n** b"
    ensures BoldAt(s, 0).None?
  {
    assert BoldClose(s, 3) == BoldClose(s, 5) by {
      assert GroupGrows(s, 3) && GroupGrows(s, 4);
      BoldCloseRun(s, 3, 5);
    }
    assert IsLineTerminator(s[4]);
  }

  /** From the second `**` on the text is left as it is. */
  lemma NestedTail(s: string)
    requires s == "** a\n** b"
    ensures BoldFrom(s, 5) == s[5..]
  {
    assert BoldAt(s, 5).None? by {
      assert BoldClose(s, 8) == BoldClose(s, 9) by {
        assert GroupGrows(s, 8);
        BoldCloseRun(s, 8, 9);
      }
      assert BoldClose(s, 9).None?;
    }
    forall k | 6 <= k < |s|
      ensures !PairAt(s, k)
    {
    }
    BoldFixNoPair(s, 6);
    BoldCharStep(s, 5);
  }

  lemma BoldFixNoPair1(s: string)
    requires s == "** a\n** b"
    requires BoldFrom(s, 5) == s[5..]
    ensures BoldFrom(s, 1) == s[1..]
  {
    NestedNoPairs(s);
    BoldCharStep(s, 4);
    BoldCharStep(s, 3);
    BoldCharStep(s, 2);
    BoldCharStep(s, 1);
  }

  lemma NestedNoPairs(s: string)
    requires s == "** a\n** b"
    ensures BoldAt(s, 1).None? && BoldAt(s, 2).None? && BoldAt(s, 3).None? && BoldAt(s, 4).None?
  {
    assert !PairAt(s, 1) && !PairAt(s, 2) && !PairAt(s, 3) && !PairAt(s, 4);
  }

  // ---------------------------------------------------------------------
  // Step 3: excess newlines
  // ---------------------------------------------------------------------

  predicate NewlineAt(s: string, j: int) {
    0 <= j < |s| && s[j] == '\n'
  }

  /** The length of the run of newlines starting at `i`. */
  function RunLen(s: string, i: nat): (n: nat)
    requires i <= |s|
    ensures i + n <= |s|
    ensures forall j :: i <= j < i + n ==> NewlineAt(s, j)
    ensures i + n == |s| || s[i + n] != '\n'
    decreases |s| - i
  {
    if i < |s| && s[i] == '\n' then 1 + RunLen(s, i + 1) else 0
  }

  /**
    `Matcher.replaceAll("\n\n")` for `\n{3,}` from `pos`, where `pos` is not
    inside a run: a run of three or more newlines becomes two, shorter runs
    and other characters are copied.
  */
  function CollapseFrom(s: string, pos: nat): (r: string)
    requires pos <= |s|
    decreases |s| - pos
  {
    if pos == |s| then ""
    else if s[pos] == '\n' then
      var n := RunLen(s, pos);
      (if n >= 3 then "\n\n" else s[pos..pos + n]) + CollapseFrom(s, pos + n)
    else [s[pos]] + CollapseFrom(s, pos + 1)
  }

  /** The newline collapse of the whole text. */
  function Collapse(s: string): (r: string)
    ensures NoTriple(r)
    ensures DropsOnly(s, 0, CollapseMask(s, 0), '\n') && r == Keep(s, CollapseMask(s, 0))
  {
    CollapseNoTriple(s, 0);
    CollapseIsKeep(s, 0);
    assert s[0..] == s;
    CollapseFrom(s, 0)
  }

  predicate TripleAt(s: string, i: nat) {
    i + 3 <= |s| && s[i] == '\n' && s[i + 1] == '\n' && s[i + 2] == '\n'
  }

  predicate NoTriple(s: string) {
    forall i :: 0 <= i < |s| ==> !TripleAt(s, i)
  }

  /** Which characters of `s[pos..]` the collapse keeps: the first two of each long run. */
  function CollapseMask(s: string, pos: nat): (m: seq<bool>)
    requires pos <= |s|
    ensures |m| == |s| - pos
    decreases |s| - pos
  {
    if pos == |s| then []
    else if s[pos] == '\n' then
      var n := RunLen(s, pos);
      RunMask(n) + CollapseMask(s, pos + n)
    else [true] + CollapseMask(s, pos + 1)
  }

  lemma KeepRun(s: string, pos: nat, n: nat)
    requires pos + n <= |s| && n >= 1
    requires forall j :: pos <= j < pos + n ==> NewlineAt(s, j)
    ensures Keep(s[pos..pos + n], RunMask(n)) == (if n >= 3 then "\n\n" else s[pos..pos + n])
    decreases n
  {
    var run := s[pos..pos + n];
    var m := RunMask(n);
    assert run[1..] == s[pos + 1..pos + n];
    assert NewlineAt(s, pos);
    if n == 1 {
      assert Keep(run, m) == [run[0]] + Keep(run[1..], m[1..]);
    } else {
      assert NewlineAt(s, pos + 1);
      assert m[1..] == [true] + Falses(n - 2);
      assert run[1..][1..] == s[pos + 2..pos + n];
      KeepNone(s[pos + 2..pos + n]);
      assert Keep(run[1..], m[1..]) == [run[1]] + Keep(s[pos + 2..pos + n], Falses(n - 2));
    }
  }

  lemma {:induction false} KeepNone(s: string)
    ensures Keep(s, Falses(|s|)) == ""
    decreases |s|
  {
    if |s| > 0 {
      assert Falses(|s|)[1..] == Falses(|s| - 1);
      KeepNone(s[1..]);
    }
  }

  /** The collapse deletes only newlines: the third and later of each run. */
  lemma CollapseIsKeep(s: string, pos: nat)
    requires pos <= |s|
    ensures DropsOnly(s, pos, CollapseMask(s, pos), '\n')
    ensures DropsErasable(s[pos..], CollapseMask(s, pos))
    ensures CollapseFrom(s, pos) == Keep(s[pos..], CollapseMask(s, pos))
  {
    CollapseKeeps(s, pos);
    CollapseDropsNewlines(s, pos);
  }

  lemma {:induction false} CollapseKeeps(s: string, pos: nat)
    requires pos <= |s|
    ensures DropsErasable(s[pos..], CollapseMask(s, pos))
    ensures CollapseFrom(s, pos) == Keep(s[pos..], CollapseMask(s, pos))
    decreases |s| - pos
  {
    if pos < |s| {
      if s[pos] == '\n' {
        var n := RunLen(s, pos);
        CollapseKeeps(s, pos + n);
        CollapseRunStep(s, pos, n);
      } else {
        CollapseKeeps(s, pos + 1);
        CollapseCharStep(s, pos);
      }
    }
  }

  /** Every character the collapse mask drops is a newline. */
  lemma {:induction false} CollapseDropsNewlines(s: string, pos: nat)
    requires pos <= |s|
    ensures DropsOnly(s, pos, CollapseMask(s, pos), '\n')
    decreases |s| - pos
  {
    if pos < |s| {
      if s[pos] == '\n' {
        var n := RunLen(s, pos);
        CollapseDropsNewlines(s, pos + n);
        CollapseDropsRun(s, pos, n);
      } else {
        CollapseDropsNewlines(s, pos + 1);
        CollapseDropsChar(s, pos);
      }
    }
  }

  lemma CollapseDropsRun(s: string, pos: nat, n: nat)
    requires pos < |s| && s[pos] == '\n' && n == RunLen(s, pos)
    requires DropsOnly(s, pos + n, CollapseMask(s, pos + n), '\n')
    ensures DropsOnly(s, pos, CollapseMask(s, pos), '\n')
  {
    MaskUnfoldRun(s, pos, n);
    RunNewlinesDropped(s, pos, n);
    MaskDropsJoin(s, pos, RunMask(n), CollapseMask(s, pos + n), '\n');
  }

  lemma CollapseDropsChar(s: string, pos: nat)
    requires pos < |s| && s[pos] != '\n'
    requires DropsOnly(s, pos + 1, CollapseMask(s, pos + 1), '\n')
    ensures DropsOnly(s, pos, CollapseMask(s, pos), '\n')
  {
    CollapseMaskChar(s, pos);
    assert KeptOrIs(s, pos, [true], 0, '\n');
    MaskDropsJoin(s, pos, [true], CollapseMask(s, pos + 1), '\n');
  }

  lemma RunNewlinesDropped(s: string, pos: nat, n: nat)
    requires pos + n <= |s| && forall j :: pos <= j < pos + n ==> NewlineAt(s, j)
    ensures MaskDrops(s, pos, RunMask(n), '\n')
  {
    forall i | 0 <= i < n
      ensures KeptOrIs(s, pos, RunMask(n), i, '\n')
    {
      assert NewlineAt(s, pos + i);
    }
  }

  lemma CollapseMaskChar(s: string, pos: nat)
    requires pos < |s| && s[pos] != '\n'
    ensures CollapseMask(s, pos) == [true] + CollapseMask(s, pos + 1)
  {
  }

  lemma CollapseRunStep(s: string, pos: nat, n: nat)
    requires pos < |s| && s[pos] == '\n' && n == RunLen(s, pos)
    requires DropsErasable(s[pos + n..], CollapseMask(s, pos + n))
    requires CollapseFrom(s, pos + n) == Keep(s[pos + n..], CollapseMask(s, pos + n))
    ensures DropsErasable(s[pos..], CollapseMask(s, pos))
    ensures CollapseFrom(s, pos) == Keep(s[pos..], CollapseMask(s, pos))
  {
    MaskUnfoldRun(s, pos, n);
    var run := RunKept(s, pos, n);
    CollapseUnfoldRun(s, pos, n, run);
    RunJoin(s, pos, pos + n, CollapseMask(s, pos), RunMask(n), CollapseMask(s, pos + n),
            CollapseFrom(s, pos), run, CollapseFrom(s, pos + n));
  }

  /** What the collapse keeps of the run at `pos`, and that it drops only newlines. */
  lemma RunKept(s: string, pos: nat, n: nat) returns (run: string)
    requires pos < |s| && s[pos] == '\n' && n == RunLen(s, pos)
    ensures pos + n <= |s| && run == (if n >= 3 then "\n\n" else s[pos..pos + n])
    ensures DropsErasable(s[pos..pos + n], RunMask(n)) && Keep(s[pos..pos + n], RunMask(n)) == run
  {
    run := if n >= 3 then "\n\n" else s[pos..pos + n];
    RunDrops(s, pos, n);
    KeepRun(s, pos, n);
  }

  /** A step of the collapse or the bold fix: a piece `s[pos..e]` in front of the rest, with every part named. */
  lemma RunJoin(s: string, pos: nat, e: nat, m: seq<bool>, ma: seq<bool>, mb: seq<bool>,
                c: string, r: string, cn: string)
    requires pos <= e <= |s| && m == ma + mb && c == r + cn
    requires DropsErasable(s[pos..e], ma) && DropsErasable(s[e..], mb)
    requires Keep(s[pos..e], ma) == r && Keep(s[e..], mb) == cn
    ensures DropsErasable(s[pos..], m) && c == Keep(s[pos..], m)
  {
    SliceSplit(s, pos, e);
    KeepConcat(s[pos..], m, s[pos..e], s[e..], ma, mb);
  }

  lemma SliceSplit(s: string, a: nat, b: nat)
    requires a <= b <= |s|
    ensures s[a..] == s[a..b] + s[b..]
  {
  }

  /** Masks that drop only erasable characters compose over concatenation. */
  lemma KeepConcat(w: string, m: seq<bool>, a: string, b: string, ma: seq<bool>, mb: seq<bool>)
    requires w == a + b && m == ma + mb
    requires DropsErasable(a, ma) && DropsErasable(b, mb)
    ensures DropsErasable(w, m)
    ensures Keep(w, m) == Keep(a, ma) + Keep(b, mb)
  {
    MaskAppendDrops(a, b, ma, mb);
    KeepAppend(a, b, ma, mb);
  }

  lemma MaskUnfoldRun(s: string, pos: nat, n: nat)
    requires pos < |s| && s[pos] == '\n' && n == RunLen(s, pos)
    ensures pos + n <= |s| && CollapseMask(s, pos) == RunMask(n) + CollapseMask(s, pos + n)
  {
  }

  lemma RunDrops(s: string, pos: nat, n: nat)
    requires pos + n <= |s| && forall j :: pos <= j < pos + n ==> NewlineAt(s, j)
    ensures DropsErasable(s[pos..pos + n], RunMask(n))
  {
    var run := s[pos..pos + n];
    forall j | 0 <= j < n
      ensures Erasable(run[j])
    {
      assert NewlineAt(s, pos + j);
      assert run[j] == s[pos + j];
    }
  }

  lemma CollapseCharStep(s: string, pos: nat)
    requires pos < |s| && s[pos] != '\n'
    requires DropsErasable(s[pos + 1..], CollapseMask(s, pos + 1))
    requires CollapseFrom(s, pos + 1) == Keep(s[pos + 1..], CollapseMask(s, pos + 1))
    ensures DropsErasable(s[pos..], CollapseMask(s, pos))
    ensures CollapseFrom(s, pos) == Keep(s[pos..], CollapseMask(s, pos))
  {
    SliceSplit(s, pos, pos + 1);
    assert DropsErasable(s[pos..pos + 1], [true]);
    KeepConcat(s[pos..], CollapseMask(s, pos), s[pos..pos + 1], s[pos + 1..], [true], CollapseMask(s, pos + 1));
  }


  /** The collapse starts with the character it starts on, unless that opens a run. */
  lemma CollapseHead(s: string, pos: nat)
    requires pos < |s| && s[pos] != '\n'
    ensures CollapseFrom(s, pos) == [s[pos]] + CollapseFrom(s, pos + 1)
  {
  }

  lemma NoTripleCons(c: char, t: string)
    requires c != '\n' && NoTriple(t)
    ensures NoTriple([c] + t)
  {
    var s := [c] + t;
    forall i | 0 <= i < |s|
      ensures !TripleAt(s, i)
    {
      if i > 0 && TripleAt(s, i) {
        assert TripleAt(t, i - 1);
      }
    }
  }

  lemma NoTripleRun(run: string, t: string)
    requires |run| <= 2 && forall j :: 0 <= j < |run| ==> run[j] == '\n'
    requires NoTriple(t) && (|t| == 0 || t[0] != '\n')
    ensures NoTriple(run + t)
  {
    var s := run + t;
    forall i | 0 <= i < |s|
      ensures !TripleAt(s, i)
    {
      if TripleAt(s, i) {
        if i >= |run| {
          assert TripleAt(t, i - |run|);
        }
      }
    }
  }

  /** After the collapse, no three newlines are adjacent. */
  lemma {:induction false} CollapseNoTriple(s: string, pos: nat)
    requires pos <= |s|
    ensures NoTriple(CollapseFrom(s, pos))
    decreases |s| - pos
  {
    if pos < |s| {
      if s[pos] == '\n' {
        var n := RunLen(s, pos);
        CollapseNoTriple(s, pos + n);
        RunNoTriple(s, pos, n);
      } else {
        CollapseNoTriple(s, pos + 1);
        CollapseHead(s, pos);
        NoTripleCons(s[pos], CollapseFrom(s, pos + 1));
      }
    }
  }

  lemma RunNoTriple(s: string, pos: nat, n: nat)
    requires pos < |s| && s[pos] == '\n' && n == RunLen(s, pos)
    requires NoTriple(CollapseFrom(s, pos + n))
    ensures NoTriple(CollapseFrom(s, pos))
  {
    var run := CollapseRunShape(s, pos, n);
    NoTripleRun(run, CollapseFrom(s, pos + n));
  }

  /** The collapse of a run: at most two newlines, then the collapse of what follows, which starts with no newline. */
  lemma CollapseRunShape(s: string, pos: nat, n: nat) returns (run: string)
    requires pos < |s| && s[pos] == '\n' && n == RunLen(s, pos)
    ensures |run| <= 2 && forall j :: 0 <= j < |run| ==> run[j] == '\n'
    ensures CollapseFrom(s, pos) == run + CollapseFrom(s, pos + n)
    ensures |CollapseFrom(s, pos + n)| == 0 || CollapseFrom(s, pos + n)[0] != '\n'
  {
    run := if n >= 3 then "\n\n" else s[pos..pos + n];
    RunNewlines(s, pos, n, run);
    AfterRun(s, pos + n);
    CollapseUnfoldRun(s, pos, n, run);
  }

  lemma CollapseUnfoldRun(s: string, pos: nat, n: nat, run: string)
    requires pos < |s| && s[pos] == '\n' && n == RunLen(s, pos)
    requires run == if n >= 3 then "\n\n" else s[pos..pos + n]
    ensures CollapseFrom(s, pos) == run + CollapseFrom(s, pos + n)
  {
    assert pos != |s| && s[pos] == '\n';
  }

  lemma RunNewlines(s: string, pos: nat, n: nat, run: string)
    requires pos + n <= |s| && forall j :: pos <= j < pos + n ==> NewlineAt(s, j)
    requires run == if n >= 3 then "\n\n" else s[pos..pos + n]
    ensures |run| <= 2 || n >= 3
    ensures forall j :: 0 <= j < |run| ==> run[j] == '\n'
  {
    forall j | 0 <= j < |run|
      ensures run[j] == '\n'
    {
      assert NewlineAt(s, pos + j);
    }
  }

  /** Where a run ends, the collapse goes on with a character that is not a newline. */
  lemma AfterRun(s: string, e: nat)
    requires e <= |s| && (e == |s| || s[e] != '\n')
    ensures |CollapseFrom(s, e)| == 0 || CollapseFrom(s, e)[0] != '\n'
  {
    if e < |s| {
      CollapseHead(s, e);
    }
  }

  /** A run of newlines is shorter than three unless three newlines start it. */
  lemma ShortRun(s: string, pos: nat)
    requires pos < |s|
    ensures TripleAt(s, pos) || RunLen(s, pos) < 3
  {
    var n := RunLen(s, pos);
    if n >= 3 {
      assert NewlineAt(s, pos) && NewlineAt(s, pos + 1) && NewlineAt(s, pos + 2);
    }
  }

  /** Text with no three adjacent newlines is left alone, so the collapse is idempotent. */
  lemma {:induction false} CollapseKeepsClean(s: string, pos: nat)
    requires pos <= |s| && NoTriple(s)
    ensures CollapseFrom(s, pos) == s[pos..]
    decreases |s| - pos
  {
    if pos < |s| {
      if s[pos] == '\n' {
        var n := RunLen(s, pos);
        ShortRun(s, pos);
        assert !TripleAt(s, pos);
        CollapseKeepsClean(s, pos + n);
        CleanRunStep(s, pos, n);
      } else {
        CollapseKeepsClean(s, pos + 1);
        CleanCharStep(s, pos);
      }
    }
  }

  lemma CleanCharStep(s: string, pos: nat)
    requires pos < |s| && s[pos] != '\n'
    requires CollapseFrom(s, pos + 1) == s[pos + 1..]
    ensures CollapseFrom(s, pos) == s[pos..]
  {
    CollapseHead(s, pos);
    assert s[pos..] == [s[pos]] + s[pos + 1..];
  }

  lemma CleanRunStep(s: string, pos: nat, n: nat)
    requires pos < |s| && s[pos] == '\n' && n == RunLen(s, pos) && n < 3
    requires CollapseFrom(s, pos + n) == s[pos + n..]
    ensures CollapseFrom(s, pos) == s[pos..]
  {
    assert s[pos..] == s[pos..pos + n] + s[pos + n..];
  }

  lemma CollapseIdempotent(s: string)
    ensures Collapse(Collapse(s)) == Collapse(s)
  {
    CollapseNoTriple(s, 0);
    CollapseKeepsClean(Collapse(s), 0);
  }
}
