/**
  Step 1 and step 4 of post-processing: every `{code(:params)?}...{code}`
  region (leftmost, shortest, non-overlapping) is cut out and replaced by an
  indexed NUL-framed sentinel, and later each sentinel, in index order, is
  replaced back by the saved text.
*/
module Protect {
  import opened Wrappers
  import opened Strings

  /** The sentinel of block `k`: NUL, `CODE_BLOCK_`, the index in decimal, NUL. */
  function Body(k: nat): (b: string)
    ensures StartsWith(b, "CODE_BLOCK_") && NoChar(b, NUL)
  {
    var b := "CODE_BLOCK_" + Decimal(k);
    assert b[..11] == "CODE_BLOCK_";
    b
  }

  function Sentinel(k: nat): string {
    [NUL] + Body(k) + [NUL]
  }

  /** Index of the first `c` in `s` at or after `j`. */
  function FirstFrom(s: string, c: char, j: nat): (r: Option<nat>)
    requires j <= |s|
    ensures r.Some? ==> j <= r.value < |s| && s[r.value] == c
    ensures r.Some? ==> forall p :: j <= p < r.value ==> s[p] != c
    ensures r.None? ==> forall p :: j <= p < |s| ==> s[p] != c
    decreases |s| - j
  {
    if j == |s| then None else if s[j] == c then Some(j) else FirstFrom(s, c, j + 1)
  }

  /**
    The opening token `{code}` or `{code:...}` at `i` (the parameters run to
    the first `}`); yields the index just past it.
  */
  function OpenAt(s: string, i: nat): (r: Option<nat>)
    requires i <= |s|
    ensures r.Some? ==> i + 6 <= r.value <= |s| && s[i..i + 5] == "{code" && s[r.value - 1] == '}'
  {
    if i + 6 <= |s| && s[i..i + 5] == "{code" && (s[i + 5] == '}' || s[i + 5] == ':') then
      match FirstFrom(s, '}', i + 5)
      case Some(j) => Some(j + 1)
      case None => None
    else None
  }

  predicate CloseTokenAt(s: string, p: nat) {
    p + 6 <= |s| && s[p..p + 6] == "{code}"
  }

  /** The end of the first `{code}` at or after `k` (the lazy body stops there). */
  function CloseFrom(s: string, k: nat): (r: Option<nat>)
    requires k <= |s|
    ensures r.Some? ==> k + 6 <= r.value <= |s| && CloseTokenAt(s, r.value - 6)
    ensures r.Some? ==> forall p :: k <= p < r.value - 6 ==> !CloseTokenAt(s, p)
    ensures r.None? ==> forall p :: k <= p ==> !CloseTokenAt(s, p)
    decreases |s| - k
  {
    if k + 6 > |s| then None
    else if s[k..k + 6] == "{code}" then Some(k + 6)
    else CloseFrom(s, k + 1)
  }

  /** The end of the code-block match starting exactly at `i`, if there is one. */
  function MatchAt(s: string, i: nat): (r: Option<nat>)
    requires i <= |s|
    ensures r.Some? ==> i + 12 <= r.value <= |s|
    ensures r.Some? ==> s[i..i + 5] == "{code" && s[r.value - 6..r.value] == "{code}"
  {
    match OpenAt(s, i)
    case None => None
    case Some(h) => CloseFrom(s, h)
  }

  predicate NoMatchAt(s: string, i: nat) {
    i <= |s| && MatchAt(s, i).None?
  }

  /** The leftmost match starting at or after `from`, as (start, end). */
  function FindBlock(s: string, from: nat): (r: Option<(nat, nat)>)
    requires from <= |s|
    ensures r.Some? ==> from <= r.value.0 <= |s| && MatchAt(s, r.value.0) == Some(r.value.1)
    ensures r.Some? ==> forall i :: from <= i < r.value.0 ==> NoMatchAt(s, i)
    ensures r.None? ==> forall i :: from <= i <= |s| ==> NoMatchAt(s, i)
    decreases |s| - from
  {
    match MatchAt(s, from)
    case Some(e) => Some((from, e))
    case None =>
      assert NoMatchAt(s, from);
      if from == |s| then None else FindBlock(s, from + 1)
  }

  /** Literal pieces and saved blocks, interleaved: l0 b0 l1 b1 ... ln. */
  function Splice(lits: seq<string>, blocks: seq<string>): string
    requires |lits| == |blocks| + 1
    decreases |blocks|
  {
    if |blocks| == 0 then lits[0] else lits[0] + blocks[0] + Splice(lits[1..], blocks[1..])
  }

  /**
    The scan of step 1 from `pos`: the text between matches and the matches
    themselves, in order. Splicing them back together gives the scanned text.
  */
  function Scan(s: string, pos: nat): (r: (seq<string>, seq<string>))
    requires pos <= |s|
    ensures |r.0| == |r.1| + 1
    ensures Splice(r.0, r.1) == s[pos..]
    decreases |s| - pos
  {
    match FindBlock(s, pos)
    case None => ([s[pos..]], [])
    case Some((a, e)) =>
      var rest := Scan(s, e);
      ScanJoin(s, pos, a, e, rest.0, rest.1);
      ([s[pos..a]] + rest.0, [s[a..e]] + rest.1)
  }

  /** One match and the scan after it splice back into the text from `pos`. */
  lemma ScanJoin(s: string, pos: nat, a: nat, e: nat, lits: seq<string>, blocks: seq<string>)
    requires pos <= a <= e <= |s| && |lits| == |blocks| + 1 && Splice(lits, blocks) == s[e..]
    ensures Splice([s[pos..a]] + lits, [s[a..e]] + blocks) == s[pos..]
  {
    var ls, bs := [s[pos..a]] + lits, [s[a..e]] + blocks;
    assert ls[1..] == lits && bs[1..] == blocks;
    assert s[pos..] == s[pos..a] + s[a..e] + s[e..];
  }

  /**
    `lits` and `blocks` cut `s[pos..]` at its leftmost matches: each block is
    the first match found from where the piece before it starts, right after
    that piece, and from where the last piece starts no match is found.
  */
  predicate Leftmost(s: string, pos: nat, lits: seq<string>, blocks: seq<string>) {
    pos <= |s| && CutsAtFound(Finder(s), pos, lits, blocks)
  }

  /** The block search of `s` as a function of the starting position. */
  function Finder(s: string): nat -> Option<(nat, nat)> {
    (i: nat) => if i <= |s| then FindBlock(s, i) else None
  }

  /**
    Laid out from `pos`, each block is what `find` finds from the start of
    the piece before it, right after that piece, and `find` finds nothing
    from the start of the last piece.
  */
  predicate CutsAtFound(find: nat -> Option<(nat, nat)>, pos: nat, lits: seq<string>, blocks: seq<string>) {
    |lits| == |blocks| + 1
    && (forall k :: 0 <= k < |blocks| ==> FoundAt(find, pos, lits, blocks, k))
    && find(CutAt(lits, blocks, pos, |blocks|)).None?
  }

  /** Where piece `k` starts when the pieces and blocks are laid out from `pos`. */
  function CutAt(lits: seq<string>, blocks: seq<string>, pos: nat, k: nat): nat
    requires k <= |blocks| < |lits|
    decreases k
  {
    if k == 0 then pos else CutAt(lits, blocks, pos, k - 1) + |lits[k - 1]| + |blocks[k - 1]|
  }

  /** Block `k` is what `find` finds from the start of piece `k`. */
  predicate FoundAt(find: nat -> Option<(nat, nat)>, pos: nat, lits: seq<string>, blocks: seq<string>, k: nat) {
    k < |blocks| < |lits|
    && var a := CutAt(lits, blocks, pos, k) + |lits[k]|;
       find(CutAt(lits, blocks, pos, k)) == Some((a, a + |blocks[k]|))
  }

  /** The scan cuts at the leftmost matches, in order. */
  lemma {:induction false} ScanLeftmost(s: string, pos: nat)
    requires pos <= |s|
    ensures Leftmost(s, pos, Scan(s, pos).0, Scan(s, pos).1)
    decreases |s| - pos
  {
    match FindBlock(s, pos)
    case None =>
      ScanLeftmostEnd(s, pos);
    case Some((a, e)) =>
      ScanLeftmost(s, e);
      ScanCons(s, pos, a, e);
      ScanLeftmostStep(s, pos, a, e, Scan(s, pos).0, Scan(s, pos).1, Scan(s, e).0, Scan(s, e).1);
  }

  lemma ScanLeftmostEnd(s: string, pos: nat)
    requires pos <= |s| && FindBlock(s, pos).None?
    ensures Leftmost(s, pos, Scan(s, pos).0, Scan(s, pos).1)
  {
    assert Scan(s, pos) == ([s[pos..]], []);
    assert Finder(s)(pos).None?;
  }

  lemma ScanLeftmostStep(s: string, pos: nat, a: nat, e: nat,
                         lits: seq<string>, blocks: seq<string>, rlits: seq<string>, rblocks: seq<string>)
    requires pos <= |s| && FindBlock(s, pos) == Some((a, e))
    requires Leftmost(s, e, rlits, rblocks)
    requires lits == [s[pos..a]] + rlits && blocks == [s[a..e]] + rblocks
    ensures Leftmost(s, pos, lits, blocks)
  {
    FoundFirst(s, pos, a, e);
    LeftmostCons(s, pos, s[pos..a], s[a..e], e, rlits, rblocks);
  }

  /** The first match from `pos` as the finder reports it, in terms of the piece before it and the block. */
  lemma FoundFirst(s: string, pos: nat, a: nat, e: nat)
    requires pos <= |s| && FindBlock(s, pos) == Some((a, e))
    ensures pos <= a <= e <= |s| && e == pos + |s[pos..a]| + |s[a..e]|
    ensures Finder(s)(pos) == Some((pos + |s[pos..a]|, e))
  {
  }

  lemma ScanCons(s: string, pos: nat, a: nat, e: nat)
    requires pos <= |s| && FindBlock(s, pos) == Some((a, e))
    ensures Scan(s, pos).0 == [s[pos..a]] + Scan(s, e).0
    ensures Scan(s, pos).1 == [s[a..e]] + Scan(s, e).1
  {
  }

  /** The first match after a piece, in front of a leftmost cut, extends the cut. */
  lemma LeftmostCons(s: string, pos: nat, x: string, b: string, e: nat, lits: seq<string>, blocks: seq<string>)
    requires pos <= |s| && e == pos + |x| + |b| && Finder(s)(pos) == Some((pos + |x|, e))
    requires Leftmost(s, e, lits, blocks)
    ensures Leftmost(s, pos, [x] + lits, [b] + blocks)
  {
    CutsCons(Finder(s), pos, x, b, lits, blocks);
  }

  /** What `find` finds after a piece, in front of a cut, extends the cut. */
  lemma CutsCons(find: nat -> Option<(nat, nat)>, pos: nat, x: string, b: string, lits: seq<string>, blocks: seq<string>)
    requires find(pos) == Some((pos + |x|, pos + |x| + |b|))
    requires CutsAtFound(find, pos + |x| + |b|, lits, blocks)
    ensures CutsAtFound(find, pos, [x] + lits, [b] + blocks)
  {
    var ls, bs := [x] + lits, [b] + blocks;
    forall k | 0 <= k < |bs|
      ensures FoundAt(find, pos, ls, bs, k)
    {
      if k == 0 {
        assert ls[0] == x && bs[0] == b;
      } else {
        FoundShift(find, pos, x, b, lits, blocks, k - 1);
      }
    }
    CutShift(x, b, lits, blocks, pos, |blocks|);
  }

  lemma FoundShift(find: nat -> Option<(nat, nat)>, pos: nat, x: string, b: string, lits: seq<string>, blocks: seq<string>, k: nat)
    requires FoundAt(find, pos + |x| + |b|, lits, blocks, k)
    ensures FoundAt(find, pos, [x] + lits, [b] + blocks, k + 1)
  {
    CutShift(x, b, lits, blocks, pos, k);
    assert ([x] + lits)[k + 1] == lits[k] && ([b] + blocks)[k + 1] == blocks[k];
  }

  /** Laying out one more piece and block in front moves every later cut along. */
  lemma {:induction false} CutShift(x: string, b: string, lits: seq<string>, blocks: seq<string>, pos: nat, k: nat)
    requires k <= |blocks| < |lits|
    ensures CutAt([x] + lits, [b] + blocks, pos, k + 1) == CutAt(lits, blocks, pos + |x| + |b|, k)
    decreases k
  {
    var ls, bs := [x] + lits, [b] + blocks;
    if k == 0 {
      assert ls[0] == x && bs[0] == b;
    } else {
      CutShift(x, b, lits, blocks, pos, k - 1);
      assert ls[k] == lits[k - 1] && bs[k] == blocks[k - 1];
    }
  }

  /** Literal pieces joined by the sentinels `base`, `base + 1`, ... */
  function Woven(lits: seq<string>, base: nat): string
    requires |lits| >= 1
    decreases |lits|
  {
    if |lits| == 1 then lits[0] else lits[0] + Sentinel(base) + Woven(lits[1..], base + 1)
  }

  /** Step 1: the protected text and the saved blocks, indexed from 0. */
  function ProtectBlocks(s: string): (r: (string, seq<string>))
  {
    var (lits, blocks) := Scan(s, 0);
    (Woven(lits, 0), blocks)
  }

  /** Step 4: for each index in turn, every occurrence of its sentinel is replaced by its block. */
  function RestoreFrom(s: string, blocks: seq<string>, i: nat): (r: string)
    requires i <= |blocks|
    ensures NoChar(s, NUL) ==> r == s
    decreases |blocks| - i
  {
    if i == |blocks| then s
    else
      ReplaceAbsent(s, Sentinel(i), blocks[i]);
      RestoreFrom(ReplaceAll(s, Sentinel(i), blocks[i]), blocks, i + 1)
  }

  function RestoreBlocks(s: string, blocks: seq<string>): (r: string)
    ensures NoChar(s, NUL) ==> r == s
  {
    RestoreFrom(s, blocks, 0)
  }

  /**
    No literal piece strictly between two protected blocks begins like a
    sentinel body. Without it a NUL closing one sentinel, the piece, and the
    NUL opening the next sentinel can read as a third sentinel.
  */
  predicate GapsClean(lits: seq<string>) {
    forall k :: 0 < k < |lits| - 1 ==> !StartsWith(lits[k], "CODE_BLOCK_")
  }

  predicate AllNoNul(ps: seq<string>) {
    forall k :: 0 <= k < |ps| ==> NoChar(ps[k], NUL)
  }

  /** The first index in `k`..`n - 1` whose sentinel body is `b`. */
  function BodyIndex(b: string, k: nat, n: nat): (r: Option<nat>)
    ensures r.Some? ==> k <= r.value < n && Body(r.value) == b
    ensures r.None? ==> forall j :: k <= j < n ==> Body(j) != b
    decreases n - k
  {
    if k >= n then None else if Body(k) == b then Some(k) else BodyIndex(b, k + 1, n)
  }

  /**
    Step 4 done positionally: the text is read left to right, and a NUL,
    a body naming a saved block and a NUL are replaced by that block. A NUL
    frame whose body names no block (an inline-code marker) is copied whole.
    Either way reading resumes after the closing NUL, so a closing NUL never
    opens another frame.
  */
  function RestoreScan(s: string, blocks: seq<string>): (r: string)
    ensures NoChar(s, NUL) ==> r == s
    decreases |s|
  {
    if |s| == 0 then ""
    else if s[0] != NUL then [s[0]] + RestoreScan(s[1..], blocks)
    else match FirstFrom(s, NUL, 1)
      case None => s
      case Some(j) =>
        match BodyIndex(s[1..j], 0, |blocks|)
        case Some(k) => blocks[k] + RestoreScan(s[j + 1..], blocks)
        case None => s[..j + 1] + RestoreScan(s[j + 1..], blocks)
  }
}

/** The protect/restore round trip, and where the restore step as written falls short of it. */
module ProtectFacts {
  import opened Wrappers
  import opened Strings
  import opened Protect
  import Renderer

  lemma BodyInjective(a: nat, b: nat)
    requires Body(a) == Body(b)
    ensures a == b
  {
    assert Decimal(a) == Body(a)[11..];
    assert Decimal(b) == Body(b)[11..];
    DecimalInjective(a, b);
  }

  /** Two different NUL-free bodies framed by NULs cannot be mistaken for each other. */
  lemma FramedMismatch(x: string, y: string, rest: string)
    requires NoChar(x, NUL) && NoChar(y, NUL) && x != y && |rest| > 0 && rest[0] == NUL
    ensures !StartsWith([NUL] + x + rest, [NUL] + y + [NUL])
  {
    var s := [NUL] + x + rest;
    var p := [NUL] + y + [NUL];
    assert s[|x| + 1] == NUL;
    if |x| < |y| && |s| >= |p| {
      assert s[|x| + 1] != p[|x| + 1];
    } else if |x| > |y| {
      assert s[|y| + 1] != p[|y| + 1];
    } else if |x| == |y| {
      var k :| 0 <= k < |x| && x[k] != y[k];
      assert s[k + 1] != p[k + 1];
    }
  }

  /** A framed body other than the pattern's, in front of a NUL, is copied through unchanged. */
  lemma FramedSkip(x: string, z: string, rest: string, rep: string)
    requires NoChar(x, NUL) && NoChar(z, NUL) && x != z && |rest| > 0 && rest[0] == NUL
    ensures ReplaceAll([NUL] + x + rest, [NUL] + z + [NUL], rep)
         == [NUL] + (x + ReplaceAll(rest, [NUL] + z + [NUL], rep))
  {
    var s := [NUL] + x + rest;
    var p := [NUL] + z + [NUL];
    FramedMismatch(x, z, rest);
    ReplaceAllMiss(s, p, rep);
    assert s[1..] == x + rest;
    ReplaceAllSkips(x, rest, p, rep);
  }

  /** A NUL followed by NUL-free text holds no NUL-framed pattern. */
  lemma LoneNul(x: string, z: string, rep: string)
    requires NoChar(x, NUL)
    ensures ReplaceAll([NUL] + x, [NUL] + z + [NUL], rep) == [NUL] + x
  {
    var s := [NUL] + x;
    var p := [NUL] + z + [NUL];
    if |s| >= |p| {
      assert s[|p| - 1] != p[|p| - 1];
    }
    ReplaceAllMiss(s, p, rep);
    assert s[1..] == x + "";
    ReplaceAllSkips(x, "", p, rep);
  }

  /** A framed body other than the pattern's is copied through unchanged. */
  lemma FramedUntouched(x: string, z: string, t: string, rep: string)
    requires NoChar(x, NUL) && NoChar(z, NUL) && x != z
    ensures ReplaceAll([NUL] + x + [NUL] + t, [NUL] + z + [NUL], rep)
         == [NUL] + x + ReplaceAll([NUL] + t, [NUL] + z + [NUL], rep)
  {
    var rest := [NUL] + t;
    FramedSkip(x, z, rest, rep);
    Assoc3([NUL], x, [NUL], t);
    Assoc2([NUL], x, ReplaceAll(rest, [NUL] + z + [NUL], rep));
  }

  lemma Assoc3(a: string, b: string, c: string, d: string)
    ensures a + b + (c + d) == a + b + c + d
  {
  }

  lemma Assoc2(a: string, b: string, c: string)
    ensures a + (b + c) == a + b + c
  {
  }

  lemma GapsCleanTail(ls: seq<string>, d: nat)
    requires GapsClean(ls) && d <= |ls|
    ensures GapsClean(ls[d..])
  {
    forall k | 0 < k < |ls[d..]| - 1
      ensures !StartsWith(ls[d..][k], "CODE_BLOCK_")
    {
      assert ls[d..][k] == ls[d + k];
    }
  }

  /** Two framed bodies, neither the pattern's, in front of a tail free of it. */
  lemma TwoFramedUntouched(x: string, y: string, t: string, z: string, rep: string)
    requires NoChar(x, NUL) && NoChar(y, NUL) && NoChar(z, NUL) && x != z && y != z
    requires ReplaceAll([NUL] + t, [NUL] + z + [NUL], rep) == [NUL] + t
    ensures ReplaceAll([NUL] + x + [NUL] + y + [NUL] + t, [NUL] + z + [NUL], rep)
         == [NUL] + x + [NUL] + y + [NUL] + t
  {
    var c := [NUL] + t;
    var b := [NUL] + y + c;
    FramedSkip(y, z, c, rep);
    Assoc2([NUL], y, c);
    FramedSkip(x, z, b, rep);
    Assoc2([NUL], x, b);
    Regroup(x, y, t);
  }

  lemma Regroup(x: string, y: string, t: string)
    ensures [NUL] + x + ([NUL] + y + ([NUL] + t)) == [NUL] + x + [NUL] + y + [NUL] + t
  {
  }

  lemma OtherBody(base: nat, i: nat)
    requires i < base
    ensures Body(base) != Body(i)
  {
    if Body(base) == Body(i) {
      BodyInjective(base, i);
    }
  }

  /**
    Behind a NUL, the rest of a woven text (its first piece not sentinel `i`'s
    body) holds no occurrence of sentinel `i`.
  */
  lemma {:induction false} NulWovenUntouched(ls: seq<string>, base: nat, i: nat, rep: string)
    requires |ls| >= 1 && i < base && AllNoNul(ls) && GapsClean(ls)
    requires |ls| > 1 ==> ls[0] != Body(i)
    ensures ReplaceAll([NUL] + Woven(ls, base), Sentinel(i), rep) == [NUL] + Woven(ls, base)
    decreases |ls|
  {
    if |ls| == 1 {
      LoneNul(ls[0], Body(i), rep);
    } else {
      WovenTail(ls, i);
      var t := ls[1..];
      NulWovenUntouched(t, base + 1, i, rep);
      NulWovenStep(ls, base, i, rep);
    }
  }

  lemma NulWovenStep(ls: seq<string>, base: nat, i: nat, rep: string)
    requires |ls| >= 2 && i < base && NoChar(ls[0], NUL) && ls[0] != Body(i)
    requires ReplaceAll([NUL] + Woven(ls[1..], base + 1), Sentinel(i), rep) == [NUL] + Woven(ls[1..], base + 1)
    ensures ReplaceAll([NUL] + Woven(ls, base), Sentinel(i), rep) == [NUL] + Woven(ls, base)
  {
    OtherBody(base, i);
    WovenUnfold(ls, base);
    NulFramedStep(ls[0], Body(base), Woven(ls[1..], base + 1), Woven(ls, base), Body(i), rep);
  }

  /** The pieces after the first still meet the requirements, and the second is no sentinel body. */
  lemma WovenTail(ls: seq<string>, i: nat)
    requires |ls| >= 2 && AllNoNul(ls) && GapsClean(ls)
    ensures AllNoNul(ls[1..]) && GapsClean(ls[1..]) && NoChar(ls[0], NUL)
    ensures |ls| > 2 ==> ls[1] != Body(i)
  {
    GapsCleanTail(ls, 1);
    assert NoChar(ls[0], NUL);
    if |ls| > 2 {
      assert !StartsWith(ls[1], "CODE_BLOCK_");
    }
  }

  /** One unfolding of a woven text behind a NUL: two framed bodies, then the rest. */
  lemma NulFramedStep(a: string, b: string, w: string, wv: string, z: string, rep: string)
    requires wv == a + ([NUL] + b + [NUL]) + w
    requires NoChar(a, NUL) && NoChar(b, NUL) && NoChar(z, NUL) && a != z && b != z
    requires ReplaceAll([NUL] + w, [NUL] + z + [NUL], rep) == [NUL] + w
    ensures ReplaceAll([NUL] + wv, [NUL] + z + [NUL], rep) == [NUL] + wv
  {
    TwoFramedUntouched(a, b, w, z, rep);
    NulWeave(wv, a, b, w);
  }

  lemma NulWeave(wv: string, a: string, b: string, w: string)
    requires wv == a + ([NUL] + b + [NUL]) + w
    ensures [NUL] + wv == [NUL] + a + [NUL] + b + [NUL] + w
  {
  }

  /**
    The sentinels of later blocks and the pieces between them contain no
    occurrence of an earlier block's sentinel.
  */
  lemma WovenUntouched(ls: seq<string>, base: nat, i: nat, rep: string)
    requires |ls| >= 1 && i < base && AllNoNul(ls) && GapsClean(ls)
    ensures ReplaceAll(Woven(ls, base), Sentinel(i), rep) == Woven(ls, base)
  {
    if |ls| == 1 {
      ReplaceAllSkips(ls[0], "", Sentinel(i), rep);
      assert ls[0] + "" == ls[0];
    } else {
      WovenTail(ls, i);
      NulWovenUntouched(ls[1..], base + 1, i, rep);
      OtherBody(base, i);
      WovenUnfold(ls, base);
      WovenStep(ls[0], Body(base), Woven(ls[1..], base + 1), Woven(ls, base), Body(i), rep);
    }
  }

  /** One unfolding of a woven text: a NUL-free piece, a framed body, then the rest. */
  lemma WovenStep(a: string, b: string, w: string, wv: string, z: string, rep: string)
    requires wv == a + ([NUL] + b + [NUL]) + w
    requires NoChar(a, NUL) && NoChar(b, NUL) && NoChar(z, NUL) && b != z
    requires ReplaceAll([NUL] + w, [NUL] + z + [NUL], rep) == [NUL] + w
    ensures ReplaceAll(wv, [NUL] + z + [NUL], rep) == wv
  {
    var c := [NUL] + w;
    var rest := [NUL] + b + c;
    FramedSkip(b, z, c, rep);
    WeaveRest(wv, a, b, w);
    ReplaceAllSkips(a, rest, [NUL] + z + [NUL], rep);
  }

  lemma WeaveRest(wv: string, a: string, b: string, w: string)
    requires wv == a + ([NUL] + b + [NUL]) + w
    ensures wv == a + ([NUL] + b + ([NUL] + w))
    ensures [NUL] + (b + ([NUL] + w)) == [NUL] + b + ([NUL] + w)
  {
  }

  lemma WovenUnfold(ls: seq<string>, base: nat)
    requires |ls| >= 2
    ensures Woven(ls, base) == ls[0] + ([NUL] + Body(base) + [NUL]) + Woven(ls[1..], base + 1)
  {
  }

  /** Pieces and blocks interleaved, each piece followed by its block. */
  function Pairs(ls: seq<string>, bs: seq<string>): string
    requires |ls| == |bs|
    decreases |bs|
  {
    if |bs| == 0 then "" else ls[0] + bs[0] + Pairs(ls[1..], bs[1..])
  }

  lemma {:induction false} PairsSnoc(ls: seq<string>, bs: seq<string>, l: string, b: string)
    requires |ls| == |bs|
    ensures Pairs(ls + [l], bs + [b]) == Pairs(ls, bs) + l + b
    decreases |bs|
  {
    if |bs| == 0 {
      assert (ls + [l])[1..] == [] && (bs + [b])[1..] == [];
    } else {
      PairsSnoc(ls[1..], bs[1..], l, b);
      PairsSnocStep(ls, bs, l, b);
    }
  }

  lemma PairsSnocStep(ls: seq<string>, bs: seq<string>, l: string, b: string)
    requires |ls| == |bs| > 0
    requires Pairs(ls[1..] + [l], bs[1..] + [b]) == Pairs(ls[1..], bs[1..]) + l + b
    ensures Pairs(ls + [l], bs + [b]) == Pairs(ls, bs) + l + b
  {
    var xs, ys := ls + [l], bs + [b];
    assert xs[1..] == ls[1..] + [l] && ys[1..] == bs[1..] + [b];
    assert xs[0] == ls[0] && ys[0] == bs[0];
    PairsCons(xs, ys);
    PairsCons(ls, bs);
    SnocRegroup(ls[0] + bs[0], Pairs(ls[1..], bs[1..]), l, b);
  }

  lemma PairsCons(ls: seq<string>, bs: seq<string>)
    requires |ls| == |bs| > 0
    ensures Pairs(ls, bs) == ls[0] + bs[0] + Pairs(ls[1..], bs[1..])
  {
  }

  lemma SnocRegroup(h: string, t: string, l: string, b: string)
    ensures h + (t + l + b) == h + t + l + b
  {
  }

  lemma {:induction false} SpliceAsPairs(lits: seq<string>, blocks: seq<string>)
    requires |lits| == |blocks| + 1
    ensures Splice(lits, blocks) == Pairs(lits[..|blocks|], blocks) + lits[|blocks|]
    decreases |blocks|
  {
    if |blocks| > 0 {
      SpliceAsPairs(lits[1..], blocks[1..]);
      assert lits[..|blocks|][1..] == lits[1..][..|blocks| - 1];
    }
  }

  lemma {:induction false} PairsNoNul(ls: seq<string>, bs: seq<string>)
    requires |ls| == |bs| && AllNoNul(ls) && AllNoNul(bs)
    ensures NoChar(Pairs(ls, bs), NUL)
    decreases |bs|
  {
    if |bs| > 0 {
      PairsNoNul(ls[1..], bs[1..]);
      NoCharAppend(ls[0], bs[0], NUL);
      NoCharAppend(ls[0] + bs[0], Pairs(ls[1..], bs[1..]), NUL);
    }
  }

  lemma {:induction false} SpliceNoNul(lits: seq<string>, blocks: seq<string>)
    requires |lits| == |blocks| + 1 && NoChar(Splice(lits, blocks), NUL)
    ensures AllNoNul(lits) && AllNoNul(blocks)
    decreases |blocks|
  {
    if |blocks| > 0 {
      var rest := Splice(lits[1..], blocks[1..]);
      NoCharAppend(lits[0] + blocks[0], rest, NUL);
      NoCharAppend(lits[0], blocks[0], NUL);
      SpliceNoNul(lits[1..], blocks[1..]);
      assert forall k :: 1 <= k < |lits| ==> lits[k] == lits[1..][k - 1];
      assert forall k :: 1 <= k < |blocks| ==> blocks[k] == blocks[1..][k - 1];
    }
  }

  /** A pattern after text free of its first character is met exactly once. */
  lemma HitOnce(a: string, pat: string, rep: string, w: string)
    requires |pat| > 0 && NoChar(a, pat[0])
    requires ReplaceAll(w, pat, rep) == w
    ensures ReplaceAll(a + pat + w, pat, rep) == a + rep + w
  {
    var pw := pat + w;
    Assoc2(a, pat, w);
    ReplaceAllSkips(a, pw, pat, rep);
    ReplaceAllHit(w, pat, rep);
    Assoc2(a, rep, w);
  }

  /** One step of the restore: sentinel `i` gives way to block `i`, and nothing else moves. */
  lemma RestoreStep(lits: seq<string>, blocks: seq<string>, i: nat)
    requires |lits| == |blocks| + 1 && i < |blocks|
    requires AllNoNul(lits) && AllNoNul(blocks) && GapsClean(lits)
    ensures ReplaceAll(Pairs(lits[..i], blocks[..i]) + Woven(lits[i..], i), Sentinel(i), blocks[i])
         == Pairs(lits[..i + 1], blocks[..i + 1]) + Woven(lits[i + 1..], i + 1)
  {
    var P := Pairs(lits[..i], blocks[..i]);
    var W := Woven(lits[i + 1..], i + 1);
    WovenAt(lits, i);
    PairsGrow(lits, blocks, i);
    StepPiecesClean(lits, blocks, i);
    HitAfter(P, lits[i], Sentinel(i), blocks[i], W);
  }

  /** Before step `i` the restored prefix and piece `i` hold no NUL, and the text after sentinel `i` holds no occurrence of it. */
  lemma StepPiecesClean(lits: seq<string>, blocks: seq<string>, i: nat)
    requires |lits| == |blocks| + 1 && i < |blocks|
    requires AllNoNul(lits) && AllNoNul(blocks) && GapsClean(lits)
    ensures NoChar(Pairs(lits[..i], blocks[..i]), NUL) && NoChar(lits[i], NUL)
    ensures ReplaceAll(Woven(lits[i + 1..], i + 1), Sentinel(i), blocks[i]) == Woven(lits[i + 1..], i + 1)
  {
    PairsNoNul(lits[..i], blocks[..i]);
    GapsCleanTail(lits, i + 1);
    WovenUntouched(lits[i + 1..], i + 1, i, blocks[i]);
  }

  /** The woven text from piece `i` on opens with that piece and its sentinel. */
  lemma WovenAt(lits: seq<string>, i: nat)
    requires i + 1 < |lits|
    ensures Woven(lits[i..], i) == lits[i] + Sentinel(i) + Woven(lits[i + 1..], i + 1)
  {
    assert lits[i..][1..] == lits[i + 1..];
  }

  lemma PairsGrow(lits: seq<string>, blocks: seq<string>, i: nat)
    requires |lits| == |blocks| + 1 && i < |blocks|
    ensures Pairs(lits[..i + 1], blocks[..i + 1]) == Pairs(lits[..i], blocks[..i]) + lits[i] + blocks[i]
  {
    PairsSnoc(lits[..i], blocks[..i], lits[i], blocks[i]);
    assert lits[..i] + [lits[i]] == lits[..i + 1];
    assert blocks[..i] + [blocks[i]] == blocks[..i + 1];
  }

  lemma HitAfter(p: string, l: string, pat: string, rep: string, w: string)
    requires |pat| > 0 && NoChar(p, pat[0]) && NoChar(l, pat[0])
    requires ReplaceAll(w, pat, rep) == w
    ensures ReplaceAll(p + (l + pat + w), pat, rep) == p + l + rep + w
  {
    NoCharAppend(p, l, pat[0]);
    assert p + (l + pat + w) == (p + l) + pat + w;
    HitOnce(p + l, pat, rep, w);
  }

  lemma {:induction false} RestoreLoop(lits: seq<string>, blocks: seq<string>, i: nat)
    requires |lits| == |blocks| + 1 && i <= |blocks|
    requires AllNoNul(lits) && AllNoNul(blocks) && GapsClean(lits)
    ensures RestoreFrom(Pairs(lits[..i], blocks[..i]) + Woven(lits[i..], i), blocks, i) == Splice(lits, blocks)
    decreases |blocks| - i
  {
    if i == |blocks| {
      SpliceAsPairs(lits, blocks);
      assert blocks[..i] == blocks;
      assert Woven(lits[i..], i) == lits[i];
    } else {
      RestoreStep(lits, blocks, i);
      RestoreLoop(lits, blocks, i + 1);
    }
  }

  /**
    Restoring the sentinels of a woven text, index by index, gives back the
    spliced original when no piece between two blocks starts like a sentinel body.
  */
  lemma RestoreWoven(lits: seq<string>, blocks: seq<string>)
    requires |lits| == |blocks| + 1
    requires AllNoNul(lits) && AllNoNul(blocks) && GapsClean(lits)
    ensures RestoreBlocks(Woven(lits, 0), blocks) == Splice(lits, blocks)
  {
    RestoreLoop(lits, blocks, 0);
    assert lits[..0] == [] && blocks[..0] == [] && lits[0..] == lits;
    assert Pairs([], []) + Woven(lits, 0) == Woven(lits, 0);
  }

  /**
    Step 4 undoes step 1: for a text without NUL, whose pieces between two
    code blocks do not start with `CODE_BLOCK_`, restoring the saved blocks
    into the protected text reproduces the text exactly.
  */
  lemma ProtectRestore(raw: string)
    requires NoChar(raw, NUL) && GapsClean(Scan(raw, 0).0)
    ensures RestoreBlocks(ProtectBlocks(raw).0, ProtectBlocks(raw).1) == raw
  {
    var (lits, blocks) := Scan(raw, 0);
    assert raw[0..] == raw;
    SpliceNoNul(lits, blocks);
    RestoreWoven(lits, blocks);
  }

  /** NUL-free text passes through the positional restore unchanged. */
  lemma {:induction false} ScanSkipsLiteral(x: string, t: string, blocks: seq<string>)
    requires NoChar(x, NUL)
    ensures RestoreScan(x + t, blocks) == x + RestoreScan(t, blocks)
    decreases |x|
  {
    if |x| == 0 {
      assert x + t == t;
    } else {
      ScanSkipsLiteral(x[1..], t, blocks);
      SkipStep(x, t, blocks);
    }
  }

  lemma SkipStep(x: string, t: string, blocks: seq<string>)
    requires |x| > 0 && x[0] != NUL
    requires RestoreScan(x[1..] + t, blocks) == x[1..] + RestoreScan(t, blocks)
    ensures RestoreScan(x + t, blocks) == x + RestoreScan(t, blocks)
  {
    ConsSplit(x, t);
    RestorePlain(x + t, x[0], x[1..] + t, blocks);
    ConsSplit(x, RestoreScan(t, blocks));
  }

  lemma ConsSplit(x: string, t: string)
    requires |x| > 0
    ensures x + t == [x[0]] + (x[1..] + t)
  {
    assert x == [x[0]] + x[1..];
  }

  /** A character other than NUL is copied by the positional restore. */
  lemma RestorePlain(s: string, c: char, rest: string, blocks: seq<string>)
    requires s == [c] + rest && c != NUL
    ensures RestoreScan(s, blocks) == [c] + RestoreScan(rest, blocks)
  {
    assert s[0] == c && s[1..] == rest;
  }

  /** The positional restore turns sentinel `k` into block `k`. */
  lemma ScanSentinel(k: nat, t: string, blocks: seq<string>)
    requires k < |blocks|
    ensures RestoreScan(Sentinel(k) + t, blocks) == blocks[k] + RestoreScan(t, blocks)
  {
    var s := Sentinel(k) + t;
    var b := Body(k);
    var j := |b| + 1;
    assert s[0] == NUL && s[j] == NUL;
    assert forall p :: 1 <= p < j ==> s[p] == b[p - 1];
    match FirstFrom(s, NUL, 1)
    case None =>
      assert false;
    case Some(v) =>
      assert v == j;
      assert s[1..j] == b;
      match BodyIndex(b, 0, |blocks|)
      case None =>
        assert false;
      case Some(m) =>
        BodyInjective(m, k);
        assert s[j + 1..] == t;
  }

  lemma {:induction false} ScanWoven(lits: seq<string>, blocks: seq<string>, base: nat)
    requires |lits| >= 1 && base + |lits| - 1 == |blocks| && AllMarked(lits)
    ensures RestoreScan(Woven(lits, base), blocks) == Splice(lits, blocks[base..])
    decreases |lits|
  {
    if |lits| == 1 {
      ScanSkipsMarked(lits[0], "", blocks);
      assert lits[0] + "" == lits[0];
    } else {
      assert AllMarked(lits[1..]);
      ScanWoven(lits[1..], blocks, base + 1);
      ScanWovenStep(lits, blocks, base);
    }
  }

  lemma ScanWovenStep(lits: seq<string>, blocks: seq<string>, base: nat)
    requires |lits| >= 2 && base + |lits| - 1 == |blocks| && Marked(lits[0])
    requires RestoreScan(Woven(lits[1..], base + 1), blocks) == Splice(lits[1..], blocks[base + 1..])
    ensures RestoreScan(Woven(lits, base), blocks) == Splice(lits, blocks[base..])
  {
    var w := Woven(lits[1..], base + 1);
    var x := lits[0];
    assert Woven(lits, base) == x + (Sentinel(base) + w);
    assert RestoreScan(x + (Sentinel(base) + w), blocks) == x + (blocks[base] + RestoreScan(w, blocks)) by {
      ScanSkipsMarked(x, Sentinel(base) + w, blocks);
      ScanSentinel(base, w, blocks);
    }
    SpliceFrom(lits, blocks, base);
  }

  lemma SpliceFrom(lits: seq<string>, blocks: seq<string>, base: nat)
    requires |lits| >= 2 && base + |lits| - 1 == |blocks|
    ensures Splice(lits, blocks[base..])
            == lits[0] + (blocks[base] + Splice(lits[1..], blocks[base + 1..]))
  {
    assert blocks[base..][1..] == blocks[base + 1..];
  }

  /**
    With the positional restore, step 4 undoes step 1 for every text without
    NUL, whatever lies between the blocks.
  */
  lemma ProtectRestoreScan(raw: string)
    requires NoChar(raw, NUL)
    ensures RestoreScan(ProtectBlocks(raw).0, ProtectBlocks(raw).1) == raw
  {
    var (lits, blocks) := Scan(raw, 0);
    assert raw[0..] == raw;
    SpliceNoNul(lits, blocks);
    AllNoNulMarked(lits);
    ScanWoven(lits, blocks, 0);
    assert blocks[0..] == blocks;
  }

  // ---------------------------------------------------------------------
  // Inline-code markers under the block restore
  // ---------------------------------------------------------------------

  /** NUL occurs only inside whole inline-code markers. */
  predicate Marked(s: string)
    decreases |s|
  {
    if |s| == 0 then true
    else if StartsWith(s, Renderer.CodeSpanStart) || StartsWith(s, Renderer.CodeSpanEnd) then Marked(s[4..])
    else s[0] != NUL && Marked(s[1..])
  }

  predicate AllMarked(ps: seq<string>) {
    forall k :: 0 <= k < |ps| ==> Marked(ps[k])
  }

  lemma {:induction false} NoNulMarked(s: string)
    requires NoChar(s, NUL)
    ensures Marked(s)
    decreases |s|
  {
    if |s| > 0 {
      assert !StartsWith(s, Renderer.CodeSpanStart) && !StartsWith(s, Renderer.CodeSpanEnd) by {
        if |s| >= 4 { assert s[..4][0] == s[0]; }
      }
      NoNulMarked(s[1..]);
    }
  }

  lemma AllNoNulMarked(ps: seq<string>)
    requires AllNoNul(ps)
    ensures AllMarked(ps)
  {
    forall k | 0 <= k < |ps|
      ensures Marked(ps[k])
    {
      NoNulMarked(ps[k]);
    }
  }

  /**
    An inline-code marker names no saved block, so the positional restore
    copies it whole and resumes after its closing NUL.
  */
  lemma ScanMarker(m: string, rest: string, blocks: seq<string>)
    requires m == Renderer.CodeSpanStart || m == Renderer.CodeSpanEnd
    ensures RestoreScan(m + rest, blocks) == m + RestoreScan(rest, blocks)
  {
    var s := m + rest;
    assert s[0] == NUL && s[1] != NUL && s[2] != NUL && s[3] == NUL;
    assert FirstFrom(s, NUL, 1) == Some(3) by {
      assert FirstFrom(s, NUL, 2) == Some(3);
    }
    var b := s[1..3];
    assert BodyIndex(b, 0, |blocks|).None? by {
      forall k | 0 <= k < |blocks|
        ensures Body(k) != b
      {
        assert |Body(k)| >= 11;
      }
    }
    assert s[..4] == m && s[4..] == rest;
  }

  /** Text whose NULs all sit in whole markers passes through the positional restore unchanged. */
  lemma {:induction false} ScanSkipsMarked(x: string, t: string, blocks: seq<string>)
    requires Marked(x)
    ensures RestoreScan(x + t, blocks) == x + RestoreScan(t, blocks)
    decreases |x|
  {
    if |x| == 0 {
      assert x + t == t;
    } else if StartsWith(x, Renderer.CodeSpanStart) || StartsWith(x, Renderer.CodeSpanEnd) {
      ScanSkipsMarked(x[4..], t, blocks);
      SkipMarkerStep(x, t, blocks);
    } else {
      ScanSkipsMarked(x[1..], t, blocks);
      SkipStep(x, t, blocks);
    }
  }

  lemma SkipMarkerStep(x: string, t: string, blocks: seq<string>)
    requires StartsWith(x, Renderer.CodeSpanStart) || StartsWith(x, Renderer.CodeSpanEnd)
    requires RestoreScan(x[4..] + t, blocks) == x[4..] + RestoreScan(t, blocks)
    ensures RestoreScan(x + t, blocks) == x + RestoreScan(t, blocks)
  {
    var m := x[..4];
    MarkerSplit(x, t);
    ScanMarker(m, x[4..] + t, blocks);
    assert x == m + x[4..];
  }

  lemma MarkerSplit(x: string, t: string)
    requires |x| >= 4
    ensures x + t == x[..4] + (x[4..] + t)
  {
    assert x == x[..4] + x[4..];
  }

  /**
    With the positional restore, step 4 undoes step 1 whenever every NUL
    outside the code blocks belongs to a whole inline-code marker.
  */
  lemma ProtectRestoreScanMarked(raw: string)
    requires AllMarked(Scan(raw, 0).0)
    ensures RestoreScan(ProtectBlocks(raw).0, ProtectBlocks(raw).1) == raw
  {
    var (lits, blocks) := Scan(raw, 0);
    assert raw[0..] == raw;
    ScanWoven(lits, blocks, 0);
    assert blocks[0..] == blocks;
  }

  /** A NUL-free text, a body and a final NUL, with the body not the pattern's. */
  lemma TwoNulUntouched(x: string, y: string, z: string, rep: string)
    requires NoChar(x, NUL) && NoChar(y, NUL) && NoChar(z, NUL) && y != z
    ensures ReplaceAll(x + [NUL] + y + [NUL], [NUL] + z + [NUL], rep) == x + [NUL] + y + [NUL]
  {
    var p := [NUL] + z + [NUL];
    assert x + [NUL] + y + [NUL] == x + ([NUL] + y + [NUL] + "");
    ReplaceAllSkips(x, [NUL] + y + [NUL] + "", p, rep);
    FramedUntouched(y, z, "", rep);
    assert ReplaceAll([NUL] + "", p, rep) == [NUL];
  }

  /**
    The input `{code}{code}{code}{code}CODE_BLOCK_0{code}{code}` holds three
    empty code blocks with `CODE_BLOCK_0` between the second and the third.
  */
  const EmptyBlock := "{code}{code}"
  const BadGap := "CODE_BLOCK_0"
  const BadRaw := EmptyBlock + EmptyBlock + BadGap + EmptyBlock

  lemma {:induction false} FindSkips(s: string, from: nat, to: nat)
    requires from <= to <= |s|
    requires forall i :: from <= i < to ==> s[i] != '{'
    ensures FindBlock(s, from) == FindBlock(s, to)
    decreases |s| - from
  {
    if from < to {
      assert OpenAt(s, from).None? by {
        if from + 6 <= |s| {
          assert s[from..from + 5][0] == s[from];
        }
      }
      FindSkips(s, from + 1, to);
    }
  }

  lemma EmptyBlockAt(s: string, a: nat)
    requires a + 12 <= |s| && s[a..a + 12] == EmptyBlock
    ensures MatchAt(s, a) == Some(a + 12)
  {
    assert s[a..a + 5] == s[a..a + 12][..5] == "{code";
    assert s[a + 5] == s[a..a + 12][5] == '}';
    assert FirstFrom(s, '}', a + 5) == Some(a + 5);
    assert s[a + 6..a + 12] == s[a..a + 12][6..] == "{code}";
    assert CloseFrom(s, a + 6) == Some(a + 12);
  }

  lemma BadRawShape()
    ensures |BadRaw| == 48
    ensures BadRaw[0..12] == EmptyBlock && BadRaw[12..24] == EmptyBlock
    ensures BadRaw[24..36] == BadGap && BadRaw[36..48] == EmptyBlock
    ensures forall i :: 24 <= i < 36 ==> BadRaw[i] != '{'
  {
    assert forall i :: 24 <= i < 36 ==> BadRaw[i] == BadGap[i - 24];
  }

  lemma ScanHit(s: string, pos: nat, a: nat, e: nat)
    requires pos <= |s| && FindBlock(s, pos) == Some((a, e))
    ensures pos <= a <= e <= |s|
    ensures Scan(s, pos) == ([s[pos..a]] + Scan(s, e).0, [s[a..e]] + Scan(s, e).1)
  {
  }

  /** An empty block at `a` adds an empty piece and that block in front of the rest of the scan. */
  lemma ScanEmptyHead(s: string, a: nat, rl: seq<string>, rb: seq<string>)
    requires a + 12 <= |s| && s[a..a + 12] == EmptyBlock
    requires Scan(s, a + 12) == (rl, rb)
    ensures Scan(s, a) == ([""] + rl, [EmptyBlock] + rb)
  {
    EmptyBlockAt(s, a);
    assert FindBlock(s, a) == Some((a, a + 12));
    ScanHit(s, a, a, a + 12);
    assert s[a..a] == "";
  }

  /** The gap at 24..36 of the input above is a piece of its own, then the block at 36. */
  lemma ScanGapHead(s: string, rl: seq<string>, rb: seq<string>)
    requires |s| == 48 && s[24..36] == BadGap && s[36..48] == EmptyBlock
    requires forall i :: 24 <= i < 36 ==> s[i] != '{'
    requires Scan(s, 48) == (rl, rb)
    ensures Scan(s, 24) == ([BadGap] + rl, [EmptyBlock] + rb)
  {
    EmptyBlockAt(s, 36);
    FindSkips(s, 24, 36);
    assert FindBlock(s, 24) == Some((36, 48));
    ScanHit(s, 24, 36, 48);
  }

  lemma ScanEnd(s: string)
    ensures Scan(s, |s|) == ([""], [])
  {
    assert FindBlock(s, |s|).None?;
  }

  lemma ScanFrom24(s: string)
    requires |s| == 48 && s[24..36] == BadGap && s[36..48] == EmptyBlock
    requires forall i :: 24 <= i < 36 ==> s[i] != '{'
    ensures Scan(s, 24) == ([BadGap, ""], [EmptyBlock])
  {
    var e: seq<string> := [];
    ScanEnd(s);
    ScanGapHead(s, [""], e);
    assert [BadGap] + [""] == [BadGap, ""] && [EmptyBlock] + e == [EmptyBlock];
  }

  lemma ScanFrom12(s: string)
    requires |s| == 48 && s[12..24] == EmptyBlock
    requires Scan(s, 24) == ([BadGap, ""], [EmptyBlock])
    ensures Scan(s, 12) == (["", BadGap, ""], [EmptyBlock, EmptyBlock])
  {
    BadLists();
    ScanEmptyHead(s, 12, [BadGap, ""], [EmptyBlock]);
  }

  lemma ScanFrom0(s: string)
    requires |s| == 48 && s[0..12] == EmptyBlock
    requires Scan(s, 12) == (["", BadGap, ""], [EmptyBlock, EmptyBlock])
    ensures Scan(s, 0) == (["", "", BadGap, ""], [EmptyBlock, EmptyBlock, EmptyBlock])
  {
    BadLists();
    ScanEmptyHead(s, 0, ["", BadGap, ""], [EmptyBlock, EmptyBlock]);
  }

  lemma BadLists()
    ensures [""] + [BadGap, ""] == ["", BadGap, ""]
    ensures [EmptyBlock] + [EmptyBlock] == [EmptyBlock, EmptyBlock]
    ensures [""] + ["", BadGap, ""] == ["", "", BadGap, ""]
    ensures [EmptyBlock] + [EmptyBlock, EmptyBlock] == [EmptyBlock, EmptyBlock, EmptyBlock]
  {
  }

  lemma ScanShape(s: string)
    requires |s| == 48
    requires s[0..12] == EmptyBlock && s[12..24] == EmptyBlock
    requires s[24..36] == BadGap && s[36..48] == EmptyBlock
    requires forall i :: 24 <= i < 36 ==> s[i] != '{'
    ensures Scan(s, 0) == (["", "", BadGap, ""], [EmptyBlock, EmptyBlock, EmptyBlock])
  {
    ScanFrom24(s);
    ScanFrom12(s);
    ScanFrom0(s);
  }

  /** How step 1 splits the input above. */
  lemma BadRawScan()
    ensures Scan(BadRaw, 0) == (["", "", BadGap, ""], [EmptyBlock, EmptyBlock, EmptyBlock])
  {
    BadRawShape();
    ScanShape(BadRaw);
  }

  lemma FirstBodies()
    ensures Body(0) == BadGap
    ensures |Body(1)| == 12 && |Body(2)| == 12 && Body(1) != Body(2)
  {
    assert Decimal(0) == "0" && Decimal(1) == "1" && Decimal(2) == "2";
  }

  lemma BadWoven()
    ensures Woven(["", "", BadGap, ""], 0) == Sentinel(0) + Sentinel(1) + BadGap + Sentinel(2)
  {
    var ls := ["", "", BadGap, ""];
    WovenCons(ls, 0);
    assert ls[1..] == ["", BadGap, ""];
    WovenCons(["", BadGap, ""], 1);
    assert ["", BadGap, ""][1..] == [BadGap, ""];
    WovenCons([BadGap, ""], 2);
    assert [BadGap, ""][1..] == [""];
    BadWovenAssoc(Sentinel(0), Sentinel(1), BadGap, Sentinel(2));
  }

  /** A woven text of two or more pieces opens with the first piece and its sentinel. */
  lemma WovenCons(ls: seq<string>, base: nat)
    requires |ls| >= 2
    ensures Woven(ls, base) == ls[0] + Sentinel(base) + Woven(ls[1..], base + 1)
  {
  }

  lemma BadWovenAssoc(s0: string, s1: string, g: string, s2: string)
    ensures "" + s0 + ("" + s1 + (g + s2 + Woven([""], 3))) == s0 + s1 + g + s2
  {
    assert Woven([""], 3) == "";
  }

  /** Sentinel 0's pass: it meets its own sentinel and a false one. */
  lemma BadFirstPass(e: string)
    requires NoChar(e, NUL)
    ensures ReplaceAll(Woven(["", "", BadGap, ""], 0), Sentinel(0), e)
         == e + [NUL] + (Body(1) + e + Body(2)) + [NUL]
  {
    FirstBodies();
    var b1, b2 := Body(1), Body(2);
    var p := Sentinel(0);
    var tail := b2 + [NUL];
    var rest := p + tail;
    var t := [NUL] + b1 + rest;
    BadWovenSplit(b1, b2);
    ReplaceAllHit(t, p, e);
    FramedSkip(b1, BadGap, rest, e);
    ReplaceAllHit(tail, p, e);
    ClosingNul(b2, p, e);
    FirstPassAssoc(e, b1, b2);
  }

  /** The protected input above: sentinel 0, a framed body, the false sentinel, a body and a NUL. */
  lemma BadWovenSplit(b1: string, b2: string)
    requires b1 == Body(1) && b2 == Body(2) && Body(0) == BadGap
    ensures Woven(["", "", BadGap, ""], 0)
         == Sentinel(0) + ([NUL] + b1 + (Sentinel(0) + (b2 + [NUL])))
  {
    BadWoven();
  }

  /** A NUL-free text and a NUL hold no pattern longer than one character that starts with NUL. */
  lemma ClosingNul(b: string, p: string, e: string)
    requires NoChar(b, NUL) && |p| > 1 && p[0] == NUL
    ensures ReplaceAll(b + [NUL], p, e) == b + [NUL]
  {
    ReplaceAllSkips(b, [NUL], p, e);
  }

  lemma FirstPassAssoc(e: string, b1: string, b2: string)
    ensures e + ([NUL] + (b1 + (e + (b2 + [NUL])))) == e + [NUL] + (b1 + e + b2) + [NUL]
  {
  }

  /** Step 4 as written, on the protected input above: two characters too many. */
  lemma BadRestoreAsWritten()
    ensures |RestoreBlocks(Woven(["", "", BadGap, ""], 0), [EmptyBlock, EmptyBlock, EmptyBlock])| == 50
  {
    var lits, blocks := ["", "", BadGap, ""], [EmptyBlock, EmptyBlock, EmptyBlock];
    var e := EmptyBlock;
    assert NoChar(e, NUL);
    FirstBodies();
    var y := Body(1) + e + Body(2);
    BadFirstPass(e);
    var r := e + [NUL] + y + [NUL];
    assert RestoreFrom(Woven(lits, 0), blocks, 0) == RestoreFrom(r, blocks, 1);
    NoCharAppend(Body(1), e, NUL);
    NoCharAppend(Body(1) + e, Body(2), NUL);
    TwoNulUntouched(e, y, Body(1), e);
    assert RestoreFrom(r, blocks, 1) == RestoreFrom(r, blocks, 2);
    TwoNulUntouched(e, y, Body(2), e);
    assert RestoreFrom(r, blocks, 2) == r;
  }

  /**
    The finding, on the input above: it has no NUL, yet step 4 as written does
    not give it back (the result is two characters longer),
    because the gap `CODE_BLOCK_0` between two sentinels reads as sentinel 0.
    The positional restore gives it back.
  */
  lemma BadRawMisrestored()
    ensures NoChar(BadRaw, NUL)
    ensures !GapsClean(Scan(BadRaw, 0).0)
    ensures RestoreBlocks(ProtectBlocks(BadRaw).0, ProtectBlocks(BadRaw).1) != BadRaw
    ensures RestoreScan(ProtectBlocks(BadRaw).0, ProtectBlocks(BadRaw).1) == BadRaw
  {
    BadRawNoNul();
    BadRawScan();
    BadGapUnclean();
    BadRawAsWritten();
    ProtectRestoreScan(BadRaw);
  }

  lemma BadRawNoNul()
    ensures NoChar(BadRaw, NUL)
  {
    BadRawShape();
    assert forall i :: 0 <= i < |BadRaw| ==> BadRaw[i] in "{code}CODE_BLOCK_0";
  }

  lemma BadGapUnclean()
    ensures !GapsClean(["", "", BadGap, ""])
  {
    assert StartsWith(["", "", BadGap, ""][2], "CODE_BLOCK_");
  }

  lemma BadRawAsWritten()
    ensures RestoreBlocks(ProtectBlocks(BadRaw).0, ProtectBlocks(BadRaw).1) != BadRaw
  {
    BadRawShape();
    BadRawScan();
    BadRestoreAsWritten();
  }

}
