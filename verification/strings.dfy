/**
  String primitives of the Java runtime that the converter relies on, written
  out over `seq<char>`: literal replace-all, prefix and substring tests,
  decimal rendering of an int, `String.trim`, `String.strip` and `isBlank`.
*/
module Strings {

  const NUL: char := '\0'

  predicate StartsWith(s: string, p: string) {
    |p| <= |s| && s[..|p|] == p
  }

  /** True when `p` occurs somewhere in `s`. */
  predicate Contains(s: string, p: string)
    decreases |s|
  {
    StartsWith(s, p) || (|s| > 0 && Contains(s[1..], p))
  }

  predicate NoChar(s: string, c: char) {
    forall i :: 0 <= i < |s| ==> s[i] != c
  }

  /**
    Java's `String.replace(CharSequence, CharSequence)`: every leftmost,
    non-overlapping occurrence of `pat`, scanning left to right, is replaced
    by `rep`.
  */
  function ReplaceAll(s: string, pat: string, rep: string): (r: string)
    requires |pat| > 0
    ensures !Contains(s, pat) ==> r == s
    decreases |s|
  {
    if |s| < |pat| then s
    else if s[..|pat|] == pat then rep + ReplaceAll(s[|pat|..], pat, rep)
    else [s[0]] + ReplaceAll(s[1..], pat, rep)
  }

  /** A text without the pattern's first character is returned unchanged. */
  lemma ReplaceAbsent(s: string, pat: string, rep: string)
    requires |pat| > 0
    ensures NoChar(s, pat[0]) ==> ReplaceAll(s, pat, rep) == s
  {
    if NoChar(s, pat[0]) {
      ReplaceAllSkips(s, "", pat, rep);
      assert s + "" == s;
    }
  }

  /** A prefix free of the pattern's first character is copied unchanged. */
  lemma {:induction false} ReplaceAllSkips(x: string, t: string, pat: string, rep: string)
    requires |pat| > 0 && NoChar(x, pat[0])
    ensures ReplaceAll(x + t, pat, rep) == x + ReplaceAll(t, pat, rep)
    decreases |x|
  {
    if |x| > 0 {
      var s := x + t;
      assert s[0] == x[0];
      if |s| < |pat| {
        assert ReplaceAll(t, pat, rep) == t;
      } else {
        assert s[..|pat|] != pat by { assert s[..|pat|][0] == x[0]; }
        assert s[1..] == x[1..] + t;
        ReplaceAllSkips(x[1..], t, pat, rep);
      }
    } else {
      assert x + t == t;
    }
  }

  /** A leading occurrence of the pattern is replaced. */
  lemma ReplaceAllHit(t: string, pat: string, rep: string)
    requires |pat| > 0
    ensures ReplaceAll(pat + t, pat, rep) == rep + ReplaceAll(t, pat, rep)
  {
    assert (pat + t)[..|pat|] == pat;
    assert (pat + t)[|pat|..] == t;
  }

  /** Where the text does not start with the pattern, its first character is copied. */
  lemma ReplaceAllMiss(s: string, pat: string, rep: string)
    requires |pat| > 0 && |s| > 0 && !StartsWith(s, pat)
    ensures ReplaceAll(s, pat, rep) == [s[0]] + ReplaceAll(s[1..], pat, rep)
  {
    if |s| < |pat| {
      assert ReplaceAll(s[1..], pat, rep) == s[1..];
      assert s == [s[0]] + s[1..];
    }
  }

  lemma NoCharAppend(a: string, b: string, c: char)
    ensures NoChar(a + b, c) <==> NoChar(a, c) && NoChar(b, c)
  {
    if NoChar(a, c) && NoChar(b, c) {
      forall i | 0 <= i < |a + b|
        ensures (a + b)[i] != c
      {
        if i >= |a| {
          assert (a + b)[i] == b[i - |a|];
        }
      }
    }
    if NoChar(a + b, c) {
      forall i | 0 <= i < |a|
        ensures a[i] != c
      {
        assert (a + b)[i] == a[i];
      }
      forall i | 0 <= i < |b|
        ensures b[i] != c
      {
        assert (a + b)[|a| + i] == b[i];
      }
    }
  }

  /** Replacing every occurrence of the character `c` by `r`, one character at a time. */
  function SubstChar(s: string, c: char, r: string): (o: string)
    ensures NoChar(s, c) ==> o == s
  {
    if |s| == 0 then "" else (if s[0] == c then r else [s[0]]) + SubstChar(s[1..], c, r)
  }

  lemma {:induction false} SubstCharAppend(x: string, y: string, c: char, r: string)
    ensures SubstChar(x + y, c, r) == SubstChar(x, c, r) + SubstChar(y, c, r)
    decreases |x|
  {
    if |x| > 0 {
      SubstCharAppend(x[1..], y, c, r);
      SubstCharStep(x, y, c, r);
    } else {
      assert x + y == y;
    }
  }

  /** With a one-character pattern, Java's replace-all is a per-character substitution. */
  lemma SubstCharStep(x: string, y: string, c: char, r: string)
    requires |x| > 0
    requires SubstChar(x[1..] + y, c, r) == SubstChar(x[1..], c, r) + SubstChar(y, c, r)
    ensures SubstChar(x + y, c, r) == SubstChar(x, c, r) + SubstChar(y, c, r)
  {
    var xy := x + y;
    assert xy[0] == x[0] && xy[1..] == x[1..] + y;
    SubstCharCons(xy, c, r);
    SubstCharCons(x, c, r);
    var h := if x[0] == c then r else [x[0]];
    ConsRegroup(h, SubstChar(x[1..], c, r), SubstChar(y, c, r));
  }

  lemma SubstCharCons(s: string, c: char, r: string)
    requires |s| > 0
    ensures SubstChar(s, c, r) == (if s[0] == c then r else [s[0]]) + SubstChar(s[1..], c, r)
  {
  }

  lemma ConsRegroup(h: string, t: string, u: string)
    ensures h + (t + u) == h + t + u
  {
  }

  /** With a one-character pattern, Java's replace-all is a per-character substitution. */
  lemma {:induction false} ReplaceCharIsSubst(s: string, c: char, r: string)
    ensures ReplaceAll(s, [c], r) == SubstChar(s, c, r)
    decreases |s|
  {
    if |s| > 0 {
      assert s[..1] == [s[0]];
      ReplaceCharIsSubst(s[1..], c, r);
    }
  }

  function Digit(d: nat): (c: char)
    requires d < 10
    ensures '0' <= c <= '9'
  {
    (48 + d) as char
  }

  predicate AllDigits(s: string) {
    forall i :: 0 <= i < |s| ==> '0' <= s[i] <= '9'
  }

  /** The number a run of decimal digits denotes, most significant first. */
  function DigitsValue(s: string): nat
    requires AllDigits(s)
    decreases |s|
  {
    if |s| == 0 then 0 else DigitsValue(s[..|s| - 1]) * 10 + (s[|s| - 1] as int - '0' as int)
  }

  /**
    Java's decimal rendering of a non-negative int (`"" + n`): digits with no
    leading zero except in `0` itself; `DecimalValue` reads them back as `n`.
  */
  function Decimal(n: nat): (r: string)
    ensures |r| > 0 && AllDigits(r)
    ensures r[0] == '0' <==> n == 0
    ensures n < 10 <==> |r| == 1
    decreases n
  {
    if n < 10 then [Digit(n)]
    else
      var p := Decimal(n / 10);
      var r := p + [Digit(n % 10)];
      assert r[..|r| - 1] == p;
      r
  }

  /** The decimal rendering of `n` denotes `n`. */
  lemma {:induction false} DecimalValue(n: nat)
    ensures DigitsValue(Decimal(n)) == n
    decreases n
  {
    if n >= 10 {
      DecimalValue(n / 10);
      var r := Decimal(n);
      assert r[..|r| - 1] == Decimal(n / 10);
    }
  }

  /** Distinct numbers have distinct decimal renderings: each reads back as its number. */
  lemma DecimalInjective(a: nat, b: nat)
    requires Decimal(a) == Decimal(b)
    ensures a == b
  {
    DecimalValue(a);
    DecimalValue(b);
  }


  function Join(parts: seq<string>, sep: string): string {
    if |parts| == 0 then ""
    else if |parts| == 1 then parts[0]
    else parts[0] + sep + Join(parts[1..], sep)
  }

  /** Joining parts without `c` by a separator without `c` gives a text without `c`. */
  lemma {:induction false} JoinClean(ps: seq<string>, sep: string, c: char)
    requires forall k :: 0 <= k < |ps| ==> NoChar(ps[k], c)
    requires NoChar(sep, c)
    ensures NoChar(Join(ps, sep), c)
    decreases |ps|
  {
    if |ps| > 1 {
      JoinClean(ps[1..], sep, c);
      assert Join(ps, sep) == ps[0] + sep + Join(ps[1..], sep);
      assert NoChar(ps[0], c);
      NoCharAppend(ps[0], sep, c);
      NoCharAppend(ps[0] + sep, Join(ps[1..], sep), c);
    }
  }

  /** The characters Java's `String.trim` removes: every code point up to U+0020. */
  predicate IsTrimmable(c: char) {
    c <= ' '
  }

  /** Java's `String.trim`. */
  function Trim(s: string): (r: string)
    ensures |r| > 0 ==> !IsTrimmable(r[0]) && !IsTrimmable(r[|r| - 1])
    ensures forall i :: 0 <= i < |s| && !IsTrimmable(s[i]) ==> |r| > 0
    decreases |s|
  {
    if |s| > 0 && IsTrimmable(s[0]) then Trim(s[1..])
    else if |s| > 0 && IsTrimmable(s[|s| - 1]) then Trim(s[..|s| - 1])
    else s
  }

  /** Java's `Character.isWhitespace`, the test behind `String.strip` and `String.isBlank`. */
  predicate IsWhitespace(c: char) {
    || ('\t' <= c <= '\r')
    || ('\U{1C}' <= c <= ' ')
    || c == '\U{1680}'
    || ('\U{2000}' <= c <= '\U{2006}')
    || ('\U{2008}' <= c <= '\U{200A}')
    || c == '\U{2028}' || c == '\U{2029}'
    || c == '\U{205F}' || c == '\U{3000}'
  }

  /** Java's `String.isBlank`. */
  predicate IsBlank(s: string) {
    forall i :: 0 <= i < |s| ==> IsWhitespace(s[i])
  }

  /** Java's `String.strip`. */
  function Strip(s: string): (r: string)
    ensures |r| > 0 ==> !IsWhitespace(r[0]) && !IsWhitespace(r[|r| - 1])
    ensures r == "" <==> IsBlank(s)
    decreases |s|
  {
    if |s| > 0 && IsWhitespace(s[0]) then Strip(s[1..])
    else if |s| > 0 && IsWhitespace(s[|s| - 1]) then Strip(s[..|s| - 1])
    else s
  }

  /** `r` is `s` with a prefix `s[..i]` and a suffix `s[j..]` of characters satisfying `cut` removed. */
  predicate CutsEnds(s: string, r: string, i: nat, j: nat, cut: char -> bool) {
    i <= j <= |s| && r == s[i..j]
    && (forall k :: 0 <= k < i ==> cut(s[k]))
    && (forall k :: j <= k < |s| ==> cut(s[k]))
  }

  lemma CutsFront(s: string, r: string, i: nat, j: nat, cut: char -> bool)
    requires |s| > 0 && cut(s[0]) && CutsEnds(s[1..], r, i, j, cut)
    ensures CutsEnds(s, r, i + 1, j + 1, cut)
  {
    assert s[1..][i..j] == s[i + 1..j + 1];
  }

  lemma CutsBack(s: string, r: string, i: nat, j: nat, cut: char -> bool)
    requires |s| > 0 && cut(s[|s| - 1]) && CutsEnds(s[..|s| - 1], r, i, j, cut)
    ensures CutsEnds(s, r, i, j, cut)
  {
    assert s[..|s| - 1][i..j] == s[i..j];
  }

  /** `strip` cuts only whitespace, and only from the two ends. */
  lemma {:induction false} StripCutsEnds(s: string)
    ensures exists i, j :: CutsEnds(s, Strip(s), i, j, IsWhitespace)
    decreases |s|
  {
    if |s| > 0 && IsWhitespace(s[0]) {
      StripCutsEnds(s[1..]);
      var i: nat, j: nat :| CutsEnds(s[1..], Strip(s[1..]), i, j, IsWhitespace);
      CutsFront(s, Strip(s), i, j, IsWhitespace);
    } else if |s| > 0 && IsWhitespace(s[|s| - 1]) {
      StripCutsEnds(s[..|s| - 1]);
      var i: nat, j: nat :| CutsEnds(s[..|s| - 1], Strip(s[..|s| - 1]), i, j, IsWhitespace);
      CutsBack(s, Strip(s), i, j, IsWhitespace);
    } else {
      assert s == s[0..|s|];
      assert CutsEnds(s, Strip(s), 0, |s|, IsWhitespace);
    }
  }

  /** `trim` cuts only characters up to U+0020, and only from the two ends. */
  lemma {:induction false} TrimCutsEnds(s: string)
    ensures exists i, j :: CutsEnds(s, Trim(s), i, j, IsTrimmable)
    decreases |s|
  {
    if |s| > 0 && IsTrimmable(s[0]) {
      TrimCutsEnds(s[1..]);
      var i: nat, j: nat :| CutsEnds(s[1..], Trim(s[1..]), i, j, IsTrimmable);
      CutsFront(s, Trim(s), i, j, IsTrimmable);
    } else if |s| > 0 && IsTrimmable(s[|s| - 1]) {
      TrimCutsEnds(s[..|s| - 1]);
      var i: nat, j: nat :| CutsEnds(s[..|s| - 1], Trim(s[..|s| - 1]), i, j, IsTrimmable);
      CutsBack(s, Trim(s), i, j, IsTrimmable);
    } else {
      assert s == s[0..|s|];
      assert CutsEnds(s, Trim(s), 0, |s|, IsTrimmable);
    }
  }
}
