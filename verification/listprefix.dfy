/**
  The marker prefix of a list item. The source computes it bottom-up, walking
  parent references from the item; the renderer here threads a `Nesting`
  top-down instead. Both are defined and proved to agree.
*/
module ListPrefix {
  import opened Tree

  /** What a node on the path from the root to an item is, as far as the walk cares. */
  datatype Ancestor = ListAnc(kind: ListKind) | ItemAnc | OtherAnc

  function Marker(k: ListKind): char {
    match k
    case Bullet => '*'
    case Ordered => '#'
  }

  /** One marker per list kind, in the same order. */
  function Markers(chain: seq<ListKind>): (r: string)
    ensures |r| == |chain|
    ensures forall i :: 0 <= i < |chain| ==> r[i] == Marker(chain[i])
  {
    if |chain| == 0 then "" else Markers(chain[..|chain| - 1]) + [Marker(chain[|chain| - 1])]
  }

  /**
    The chain of list kinds the walk collects, outer-to-inner, from the
    ancestors of an item listed innermost first (`anc[0]` is the item's
    parent): a list contributes its kind, and the walk continues past it only
    when the list's own parent is a list item.
  */
  function Walk(anc: seq<Ancestor>): (chain: seq<ListKind>)
    ensures chain == [] <==> (|anc| == 0 || !anc[0].ListAnc?)
    ensures |chain| <= |anc|
  {
    if |anc| == 0 then []
    else match anc[0]
      case ListAnc(k) => (if |anc| > 1 && anc[1].ItemAnc? then Walk(anc[2..]) else []) + [k]
      case _ => []
  }

  lemma MarkersSnoc(chain: seq<ListKind>, k: ListKind)
    ensures Markers(chain + [k]) == Markers(chain) + [Marker(k)]
  {
    assert (chain + [k])[..|chain|] == chain;
  }

  /** The prefix the walk yields, falling back to the item's own marker when no list was found. */
  function WalkPrefix(anc: seq<Ancestor>, marker: char): string {
    var chain := Walk(anc);
    if chain == [] then [marker] else Markers(chain)
  }

  /**
    The source's loop: from the item's parent upwards, prepend a marker for
    each list and step over a list-item parent; stop at anything else.
  */
  method ComputeListPrefix(anc: seq<Ancestor>, marker: char) returns (prefix: string)
    ensures |prefix| >= 1
    ensures prefix == WalkPrefix(anc, marker)
  {
    var sb: string := "";
    var i := 0;
    while i < |anc| && anc[i].ListAnc?
      invariant 0 <= i <= |anc|
      invariant Markers(Walk(anc)) == Markers(Walk(anc[i..])) + sb
      decreases |anc| - i
    {
      PrefixStep(anc, i, sb);
      sb := [Marker(anc[i].kind)] + sb;
      if i + 1 < |anc| && anc[i + 1].ItemAnc? {
        i := i + 2;
      } else {
        EmptyTail(anc);
        i := |anc|;
      }
    }
    EmptyTail(anc);
    assert Walk(anc[i..]) == [];
    prefix := if sb == "" then [marker] else sb;
  }

  lemma EmptyTail(anc: seq<Ancestor>)
    ensures Markers(Walk(anc[|anc|..])) == ""
  {
    assert anc[|anc|..] == [];
  }

  /** The loop body keeps the walk's markers split between the unvisited tail and `sb`. */
  lemma PrefixStep(anc: seq<Ancestor>, i: nat, sb: string)
    requires i < |anc| && anc[i].ListAnc?
    requires Markers(Walk(anc)) == Markers(Walk(anc[i..])) + sb
    ensures i + 1 < |anc| && anc[i + 1].ItemAnc? ==>
      Markers(Walk(anc)) == Markers(Walk(anc[i + 2..])) + ([Marker(anc[i].kind)] + sb)
    ensures !(i + 1 < |anc| && anc[i + 1].ItemAnc?) ==>
      Markers(Walk(anc)) == [Marker(anc[i].kind)] + sb
  {
    WalkStep(anc, i);
    if i + 1 < |anc| && anc[i + 1].ItemAnc? {
      Regroup(Markers(Walk(anc)), Markers(Walk(anc[i..])), Markers(Walk(anc[i + 2..])), [Marker(anc[i].kind)], sb);
    } else {
      MarkerOne(anc[i].kind);
    }
  }

  lemma Regroup(w: string, h: string, t: string, m: string, sb: string)
    requires w == h + sb && h == t + m
    ensures w == t + (m + sb)
  {
  }

  lemma MarkerOne(k: ListKind)
    ensures Markers([k]) == [Marker(k)]
  {
    assert [k][..0] == [];
  }

  /** One step of the walk: the list at `i`, then (past an item) the rest. */
  lemma WalkStep(anc: seq<Ancestor>, i: nat)
    requires i < |anc| && anc[i].ListAnc?
    ensures i + 1 < |anc| && anc[i + 1].ItemAnc? ==>
      Markers(Walk(anc[i..])) == Markers(Walk(anc[i + 2..])) + [Marker(anc[i].kind)]
    ensures !(i + 1 < |anc| && anc[i + 1].ItemAnc?) ==> Walk(anc[i..]) == [anc[i].kind]
  {
    var t := anc[i..];
    assert t[0] == anc[i];
    if i + 1 < |anc| && anc[i + 1].ItemAnc? {
      assert t[1] == anc[i + 1];
      assert t[2..] == anc[i + 2..];
      MarkersSnoc(Walk(anc[i + 2..]), anc[i].kind);
    }
  }

  /** Where the renderer is: the parent node's kind and the list chain reaching it. */
  datatype Parent = ListParent | ItemParent | OtherParent

  datatype Nesting = Nesting(chain: seq<ListKind>, parent: Parent)

  const Root := Nesting([], OtherParent)

  /**
    The nesting the children of a node see. A list extends the chain of an
    enclosing item (or starts a new one); an item keeps the chain of the list
    that holds it; any other node ends the chain.
  */
  function Enter(n: Nesting, a: Ancestor): (m: Nesting)
    ensures m.parent == ListParent <==> a.ListAnc?
    ensures m.parent == ItemParent <==> a.ItemAnc?
    ensures a.ListAnc? ==> |m.chain| >= 1 && m.chain[|m.chain| - 1] == a.kind
  {
    match a
    case ListAnc(k) => Nesting((if n.parent == ItemParent then n.chain else []) + [k], ListParent)
    case ItemAnc => Nesting(if n.parent == ListParent then n.chain else [], ItemParent)
    case OtherAnc => Nesting([], OtherParent)
  }

  /** The nesting after descending along `path`, listed outer-to-inner. */
  function EnterAll(n: Nesting, path: seq<Ancestor>): Nesting
    decreases |path|
  {
    if |path| == 0 then n else EnterAll(Enter(n, path[0]), path[1..])
  }

  /** The prefix of an item whose parent sees nesting `n`, computed top-down. */
  function ItemPrefix(n: Nesting, marker: char): (p: string)
    ensures |p| >= 1
    ensures forall i :: 0 <= i < |p| ==> p[i] == marker || p[i] == '*' || p[i] == '#'
  {
    var sb := if n.parent == ListParent then Markers(n.chain) else "";
    if sb == "" then [marker] else sb
  }

  function Reverse<T>(s: seq<T>): (r: seq<T>)
    ensures |r| == |s|
    ensures forall i :: 0 <= i < |s| ==> r[i] == s[|s| - 1 - i]
  {
    if |s| == 0 then [] else Reverse(s[1..]) + [s[0]]
  }

  /** What the top-down nesting holds, described by the bottom-up walk over the reversed path. */
  ghost predicate Agrees(n: Nesting, anc: seq<Ancestor>) {
    && (n.parent == ListParent <==> (|anc| > 0 && anc[0].ListAnc?))
    && (n.parent == ItemParent <==> (|anc| > 0 && anc[0].ItemAnc?))
    && (n.parent == ListParent ==> n.chain == Walk(anc))
    && (n.parent == ItemParent ==> n.chain == Walk(anc[1..]))
  }

  lemma {:induction false} EnterAgrees(n: Nesting, anc: seq<Ancestor>, a: Ancestor)
    requires Agrees(n, anc)
    ensures Agrees(Enter(n, a), [a] + anc)
  {
    var anc' := [a] + anc;
    assert anc'[1..] == anc;
    if a.ListAnc? && |anc| > 0 && anc[0].ItemAnc? {
      assert anc'[2..] == anc[1..];
    }
  }

  lemma {:induction false} EnterAllAgrees(n: Nesting, anc: seq<Ancestor>, path: seq<Ancestor>)
    requires Agrees(n, anc)
    ensures Agrees(EnterAll(n, path), Reverse(path) + anc)
    decreases |path|
  {
    if |path| == 0 {
      assert Reverse(path) + anc == anc;
    } else {
      EnterAgrees(n, anc, path[0]);
      EnterAllAgrees(Enter(n, path[0]), [path[0]] + anc, path[1..]);
      assert Reverse(path[1..]) + ([path[0]] + anc) == Reverse(path) + anc;
    }
  }

  /**
    The top-down prefix the renderer uses equals the source's bottom-up walk
    over the same ancestors, for every path from the root.
  */
  lemma {:induction false} TopDownEqualsBottomUp(path: seq<Ancestor>, marker: char)
    ensures ItemPrefix(EnterAll(Root, path), marker) == WalkPrefix(Reverse(path), marker)
  {
    EnterAllAgrees(Root, [], path);
    assert Reverse(path) + [] == Reverse(path);
  }

  /** The path from a list nested in items of lists: list, item, list, item, ..., list. */
  function NestedLists(kinds: seq<ListKind>): (path: seq<Ancestor>)
    requires |kinds| >= 1
    ensures |path| == 2 * |kinds| - 1
  {
    if |kinds| == 1 then [ListAnc(kinds[0])]
    else [ListAnc(kinds[0]), ItemAnc] + NestedLists(kinds[1..])
  }

  lemma {:induction false} NestedListsChain(n: Nesting, kinds: seq<ListKind>)
    requires |kinds| >= 1
    ensures EnterAll(n, NestedLists(kinds)).parent == ListParent
    ensures EnterAll(n, NestedLists(kinds)).chain == (if n.parent == ItemParent then n.chain else []) + kinds
    decreases |kinds|
  {
    var p := NestedLists(kinds);
    if |kinds| == 1 {
      assert p[1..] == [];
    } else {
      var n1 := Enter(n, ListAnc(kinds[0]));
      var n2 := Enter(n1, ItemAnc);
      assert p[1..][1..] == NestedLists(kinds[1..]);
      NestedListsChain(n2, kinds[1..]);
      assert n2.chain + kinds[1..] == (if n.parent == ItemParent then n.chain else []) + kinds;
    }
  }

  /**
    An item of a list nested k levels deep (k+1 lists in the chain) gets a
    prefix of length k+1 whose characters are the kinds of its enclosing lists,
    outer-to-inner, whatever non-item node (or the root) encloses the outermost list.
  */
  lemma NestedPrefix(n: Nesting, kinds: seq<ListKind>, marker: char)
    requires |kinds| >= 1 && n.parent != ItemParent
    ensures ItemPrefix(EnterAll(n, NestedLists(kinds)), marker) == Markers(kinds)
    ensures |ItemPrefix(EnterAll(n, NestedLists(kinds)), marker)| == |kinds|
  {
    NestedListsChain(n, kinds);
    assert [] + kinds == kinds;
  }
}
