/**
 * The state of `TreeNode`s, as an arena: node `n` is position `n` of a sequence,
 * and `children` and `parent` hold positions. The cached `descendantCount` of
 * every node is kept in a separate sequence of the same length. This module
 * defines what a well-linked arena is, the flattening of the visible rows, and
 * the getters `indexPath` and `indentationLevel`, and proves how they agree.
 */
module TreeModel {
  import opened Wrappers
  import opened RowMath
  import Diff

  /**
   * One `TreeNode` without its cached count: identity (`hashValue`/`isEqual`), the
   * `isExpandable` tag (false for `TreeRow`, true for `TreeSection`), `isExpanded`,
   * `children` (None: not yet loaded), and the `parent`/`index` back-references.
   */
  datatype Node = Node(
    id: int,
    expandable: bool,
    expanded: bool,
    kids: Option<seq<nat>>,
    parent: Option<nat>,
    index: nat)

  /** The children of `n`, an absent array read as empty (`children ?? []`). */
  function KidsOf(nodes: seq<Node>, n: nat): seq<nat>
    requires n < |nodes|
  {
    nodes[n].kids.GetOr([])
  }

  /** Every child points back to its parent at its own position, and lies after it. */
  ghost predicate ChildLinks(nodes: seq<Node>) {
    forall q, j :: 0 <= q < |nodes| && 0 <= j < |KidsOf(nodes, q)| ==>
      q < KidsOf(nodes, q)[j] < |nodes| &&
      nodes[KidsOf(nodes, q)[j]].parent == Some(q) &&
      nodes[KidsOf(nodes, q)[j]].index == j
  }

  /** Every parent reference is matched by the parent's children array. */
  ghost predicate ParentLinks(nodes: seq<Node>) {
    forall n :: 0 <= n < |nodes| && nodes[n].parent.Some? ==>
      nodes[n].parent.value < n &&
      nodes[nodes[n].parent.value].kids.Some? &&
      nodes[n].index < |KidsOf(nodes, nodes[n].parent.value)| &&
      KidsOf(nodes, nodes[n].parent.value)[nodes[n].index] == n
  }

  /** The identities of the nodes at positions `ks`. */
  function Ids(nodes: seq<Node>, ks: seq<nat>): (r: seq<int>)
    requires forall j :: 0 <= j < |ks| ==> ks[j] < |nodes|
    ensures |r| == |ks|
  {
    seq(|ks|, j requires 0 <= j < |ks| => nodes[ks[j]].id)
  }

  /** No two children of one node are equal (the diff's precondition). */
  ghost predicate DistinctChildren(nodes: seq<Node>) {
    forall q :: 0 <= q < |nodes| && (forall j :: 0 <= j < |KidsOf(nodes, q)| ==> KidsOf(nodes, q)[j] < |nodes|) ==>
      Diff.Distinct(Ids(nodes, KidsOf(nodes, q)))
  }

  ghost predicate Wf(nodes: seq<Node>) {
    ChildLinks(nodes) && ParentLinks(nodes) && DistinctChildren(nodes)
  }

  /** What the row arithmetic reads of the nodes at positions `ks`. */
  function Items(nodes: seq<Node>, counts: seq<int>, ks: seq<nat>): (r: seq<Item>)
    requires |counts| == |nodes|
    requires forall j :: 0 <= j < |ks| ==> ks[j] < |nodes|
    ensures |r| == |ks|
  {
    seq(|ks|, j requires 0 <= j < |ks| => Item(nodes[ks[j]].expanded, counts[ks[j]]))
  }

  /** The cached count of `n` is its children's rows: one each, plus an expanded child's count. */
  ghost predicate Local(nodes: seq<Node>, counts: seq<int>, n: nat)
    requires Wf(nodes) && |counts| == |nodes| && n < |nodes|
  {
    counts[n] == Total(Items(nodes, counts, KidsOf(nodes, n)))
  }

  ghost predicate Counted(nodes: seq<Node>, counts: seq<int>)
    requires Wf(nodes)
  {
    |counts| == |nodes| && forall n :: 0 <= n < |nodes| ==> Local(nodes, counts, n)
  }

  // ---- The visible rows ----------------------------------------------------

  /**
   * The rows below `n` when `n` is shown: each child, followed by the rows of
   * its own subtree when it is expanded (pre-order, collapsed subtrees skipped).
   */
  ghost function Visible(nodes: seq<Node>, n: nat): seq<nat>
    requires Wf(nodes) && n < |nodes|
    decreases |nodes| - n, 1, 0
  {
    VisibleFrom(nodes, n, 0)
  }

  /** The rows contributed by the children of `n` from position `j` on. */
  ghost function VisibleFrom(nodes: seq<Node>, n: nat, j: nat): seq<nat>
    requires Wf(nodes) && n < |nodes| && j <= |KidsOf(nodes, n)|
    decreases |nodes| - n, 0, |KidsOf(nodes, n)| - j
  {
    if j == |KidsOf(nodes, n)| then []
    else
      var c := KidsOf(nodes, n)[j];
      assert n < c < |nodes|;
      [c] + (if nodes[c].expanded then Visible(nodes, c) else []) + VisibleFrom(nodes, n, j + 1)
  }

  /** The rows child `c` occupies among its parent's rows. */
  ghost function Block(nodes: seq<Node>, c: nat): seq<nat>
    requires Wf(nodes) && c < |nodes|
  {
    [c] + (if nodes[c].expanded then Visible(nodes, c) else [])
  }

  lemma {:induction false} KidInRange(nodes: seq<Node>, n: nat, j: nat)
    requires Wf(nodes) && n < |nodes| && j < |KidsOf(nodes, n)|
    ensures n < KidsOf(nodes, n)[j] < |nodes|
  {
  }

  /** The cached count of every node is the number of its visible rows. */
  lemma {:induction false} CountIsVisible(nodes: seq<Node>, counts: seq<int>, n: nat)
    requires Wf(nodes) && Counted(nodes, counts) && n < |nodes|
    ensures counts[n] == |Visible(nodes, n)|
    decreases |nodes| - n, 1, 0
  {
    VisibleFromLength(nodes, counts, n, 0);
    assert Local(nodes, counts, n);
  }

  lemma {:induction false} VisibleFromLength(nodes: seq<Node>, counts: seq<int>, n: nat, j: nat)
    requires Wf(nodes) && Counted(nodes, counts) && n < |nodes| && j <= |KidsOf(nodes, n)|
    ensures |VisibleFrom(nodes, n, j)|
         == Total(Items(nodes, counts, KidsOf(nodes, n))) - Offset(Items(nodes, counts, KidsOf(nodes, n)), j)
    decreases |nodes| - n, 0, |KidsOf(nodes, n)| - j
  {
    var ks := KidsOf(nodes, n);
    if j < |ks| {
      KidInRange(nodes, n, j);
      var c := ks[j];
      if nodes[c].expanded {
        CountIsVisible(nodes, counts, c);
      }
      VisibleFromLength(nodes, counts, n, j + 1);
    }
  }

  /** Counts are never negative. */
  lemma {:induction false} CountsNonNegative(nodes: seq<Node>, counts: seq<int>)
    requires Wf(nodes) && Counted(nodes, counts)
    ensures forall n :: 0 <= n < |nodes| ==> counts[n] >= 0
  {
    forall n | 0 <= n < |nodes| ensures counts[n] >= 0 {
      CountIsVisible(nodes, counts, n);
    }
  }

  lemma {:induction false} ItemsNonNegative(nodes: seq<Node>, counts: seq<int>, n: nat)
    requires Wf(nodes) && Counted(nodes, counts) && n < |nodes|
    ensures NonNegative(Items(nodes, counts, KidsOf(nodes, n)))
  {
    CountsNonNegative(nodes, counts);
  }

  /** From child `j` on, the children's rows start with child `j`'s block. */
  lemma {:induction false} VisibleFromSuffix(nodes: seq<Node>, counts: seq<int>, n: nat, j: nat, k: nat)
    requires Wf(nodes) && Counted(nodes, counts) && n < |nodes| && j <= k <= |KidsOf(nodes, n)|
    ensures 0 <= Offset(Items(nodes, counts, KidsOf(nodes, n)), k) - Offset(Items(nodes, counts, KidsOf(nodes, n)), j)
              <= |VisibleFrom(nodes, n, j)|
    ensures VisibleFrom(nodes, n, j)[Offset(Items(nodes, counts, KidsOf(nodes, n)), k) -
                                     Offset(Items(nodes, counts, KidsOf(nodes, n)), j)..] == VisibleFrom(nodes, n, k)
    decreases k - j
  {
    if j < k {
      BlockSplit(nodes, counts, n, j);
      VisibleFromSuffix(nodes, counts, n, j + 1, k);
      SuffixAfter(VisibleFrom(nodes, n, j), Block(nodes, KidsOf(nodes, n)[j]), VisibleFrom(nodes, n, j + 1),
                  Offset(Items(nodes, counts, KidsOf(nodes, n)), k) - Offset(Items(nodes, counts, KidsOf(nodes, n)), j + 1));
    }
  }

  /** A suffix of `rest` is a suffix of `block + rest`, `|block|` positions further on. */
  lemma SuffixAfter(all: seq<nat>, block: seq<nat>, rest: seq<nat>, m: int)
    requires all == block + rest && 0 <= m <= |rest|
    ensures |block| + m <= |all| && all[|block| + m..] == rest[m..]
  {
    assert all[|block|..] == rest;
  }

  /** The rows of `n` from the offset of child `k` on start with that child's block. */
  lemma {:induction false} BlockAt(nodes: seq<Node>, counts: seq<int>, n: nat, k: nat)
    requires Wf(nodes) && Counted(nodes, counts) && n < |nodes| && k < |KidsOf(nodes, n)|
    ensures KidsOf(nodes, n)[k] < |nodes|
    ensures var o := Offset(Items(nodes, counts, KidsOf(nodes, n)), k);
      0 <= o && o + |Block(nodes, KidsOf(nodes, n)[k])| <= |Visible(nodes, n)| &&
      Visible(nodes, n)[o..o + |Block(nodes, KidsOf(nodes, n)[k])|] == Block(nodes, KidsOf(nodes, n)[k])
  {
    VisibleFromSuffix(nodes, counts, n, 0, k);
    KidInRange(nodes, n, k);
    var c := KidsOf(nodes, n)[k];
    var o := Offset(Items(nodes, counts, KidsOf(nodes, n)), k);
    var block := Block(nodes, c);
    assert Visible(nodes, n)[o..] == block + VisibleFrom(nodes, n, k + 1);
    assert Visible(nodes, n)[o..][..|block|] == block;
  }

  /**
   * Child `k` of `n` is the row at its offset among `n`'s rows, and when it is
   * expanded its own rows follow it.
   */
  lemma {:induction false} VisibleAt(nodes: seq<Node>, counts: seq<int>, n: nat, k: nat, c: nat, o: int)
    requires Wf(nodes) && Counted(nodes, counts) && n < |nodes| && k < |KidsOf(nodes, n)|
    requires c == KidsOf(nodes, n)[k] && o == Offset(Items(nodes, counts, KidsOf(nodes, n)), k)
    ensures n < c < |nodes|
    ensures 0 <= o < |Visible(nodes, n)| && Visible(nodes, n)[o] == c
    ensures nodes[c].expanded ==>
        o + 1 + |Visible(nodes, c)| <= |Visible(nodes, n)| &&
        forall x :: 0 <= x < |Visible(nodes, c)| ==> Visible(nodes, n)[o + 1 + x] == Visible(nodes, c)[x]
  {
    BlockAt(nodes, counts, n, k);
    var block := Block(nodes, c);
    var all := Visible(nodes, n);
    var part := all[o..o + |block|];
    assert part == block;
    assert all[o] == part[0];
    if nodes[c].expanded {
      forall x | 0 <= x < |Visible(nodes, c)|
        ensures all[o + 1 + x] == Visible(nodes, c)[x]
      {
        assert all[o + 1 + x] == part[1 + x];
      }
    }
  }

  // ---- Parent chains: indexPath and indentationLevel -----------------------

  /** The node at the top of `n`'s parent chain (itself when it has no parent). */
  function Top(nodes: seq<Node>, n: nat): (t: nat)
    requires Wf(nodes) && n < |nodes|
    ensures t <= n && nodes[t].parent.None?
    decreases n
  {
    match nodes[n].parent
    case None => n
    case Some(q) => Top(nodes, q)
  }

  /** Every ancestor of `n` is expanded, so `n` is shown whenever its top node is. */
  ghost predicate Shown(nodes: seq<Node>, n: nat)
    requires Wf(nodes) && n < |nodes|
    decreases n
  {
    match nodes[n].parent
    case None => true
    case Some(q) => nodes[q].expanded && Shown(nodes, q)
  }

  /** The number of ancestors of `n`. */
  ghost function Depth(nodes: seq<Node>, n: nat): nat
    requires Wf(nodes) && n < |nodes|
    decreases n
  {
    match nodes[n].parent
    case None => 0
    case Some(q) => 1 + Depth(nodes, q)
  }

  /**
   * `indexPath.row`: -1 for a node without a parent; otherwise the parent's row,
   * plus one, plus the rows of the preceding siblings; nil when the parent is
   * collapsed or has no row itself.
   */
  function Row(nodes: seq<Node>, counts: seq<int>, n: nat): (r: Option<int>)
    requires Wf(nodes) && |counts| == |nodes| && n < |nodes|
    ensures r.Some? <==> Shown(nodes, n)
    ensures nodes[n].parent.None? ==> r == Some(-1)
    decreases n
  {
    match nodes[n].parent
    case None => Some(-1)
    case Some(q) =>
      if !nodes[q].expanded then None
      else
        match Row(nodes, counts, q)
        case None => None
        case Some(r) => Some(r + 1 + Offset(Items(nodes, counts, KidsOf(nodes, q)), nodes[n].index))
  }

  /** `indentationLevel`: one less than the number of ancestors, for a shown node. */
  function IndentationLevel(nodes: seq<Node>, n: nat): (r: Option<int>)
    requires Wf(nodes) && n < |nodes|
    ensures r.Some? <==> Shown(nodes, n)
    ensures r.Some? ==> r.value == Depth(nodes, n) - 1
    decreases n
  {
    match nodes[n].parent
    case None => Some(-1)
    case Some(q) =>
      if !nodes[q].expanded then None
      else
        match IndentationLevel(nodes, q)
        case None => None
        case Some(level) => Some(level + 1)
  }

  /** Each node of `s` has row `base` plus its position in `s` and top node `t`. */
  ghost predicate RowsFrom(nodes: seq<Node>, counts: seq<int>, s: seq<nat>, base: int, t: nat)
    requires Wf(nodes) && |counts| == |nodes|
  {
    forall i :: 0 <= i < |s| ==>
      s[i] < |nodes| && Row(nodes, counts, s[i]) == Some(base + i) && Top(nodes, s[i]) == t
  }

  lemma {:induction false} RowsFromJoin(nodes: seq<Node>, counts: seq<int>, a: seq<nat>, b: seq<nat>, base: int, t: nat)
    requires Wf(nodes) && |counts| == |nodes|
    requires RowsFrom(nodes, counts, a, base, t) && RowsFrom(nodes, counts, b, base + |a|, t)
    ensures RowsFrom(nodes, counts, a + b, base, t)
  {
    forall i | 0 <= i < |a + b|
      ensures (a + b)[i] < |nodes| && Row(nodes, counts, (a + b)[i]) == Some(base + i) &&
              Top(nodes, (a + b)[i]) == t
    {
      if i >= |a| {
        assert (a + b)[i] == b[i - |a|];
      }
    }
  }

  lemma {:induction false} RowsOfVisible(nodes: seq<Node>, counts: seq<int>, n: nat, r: int)
    requires Wf(nodes) && Counted(nodes, counts) && n < |nodes|
    requires nodes[n].expanded && Row(nodes, counts, n) == Some(r)
    ensures RowsFrom(nodes, counts, Visible(nodes, n), r + 1, Top(nodes, n))
    decreases |nodes| - n, 1, 0, 0
  {
    RowsOfVisibleFrom(nodes, counts, n, r, 0);
  }

  lemma {:induction false} RowsOfVisibleFrom(nodes: seq<Node>, counts: seq<int>, n: nat, r: int, j: nat)
    requires Wf(nodes) && Counted(nodes, counts) && n < |nodes| && j <= |KidsOf(nodes, n)|
    requires nodes[n].expanded && Row(nodes, counts, n) == Some(r)
    ensures RowsFrom(nodes, counts, VisibleFrom(nodes, n, j),
                     r + 1 + Offset(Items(nodes, counts, KidsOf(nodes, n)), j), Top(nodes, n))
    decreases |nodes| - n, 0, |KidsOf(nodes, n)| - j, 0
  {
    if j < |KidsOf(nodes, n)| {
      RowsOfVisibleFrom(nodes, counts, n, r, j + 1);
      StepRows(nodes, counts, n, r, j);
    } else {
      assert VisibleFrom(nodes, n, j) == [];
    }
  }

  /** Child `j`'s block, placed before the rows of the later children, gives the rows from child `j` on. */
  lemma {:induction false} StepRows(nodes: seq<Node>, counts: seq<int>, n: nat, r: int, j: nat)
    requires Wf(nodes) && Counted(nodes, counts) && n < |nodes| && j < |KidsOf(nodes, n)|
    requires nodes[n].expanded && Row(nodes, counts, n) == Some(r)
    requires RowsFrom(nodes, counts, VisibleFrom(nodes, n, j + 1),
                      r + 1 + Offset(Items(nodes, counts, KidsOf(nodes, n)), j + 1), Top(nodes, n))
    ensures RowsFrom(nodes, counts, VisibleFrom(nodes, n, j),
                     r + 1 + Offset(Items(nodes, counts, KidsOf(nodes, n)), j), Top(nodes, n))
    decreases |nodes| - n, 0, |KidsOf(nodes, n)| - j - 1, 1
  {
    var block := BlockRows(nodes, counts, n, r, j);
    JoinAt(nodes, counts, VisibleFrom(nodes, n, j), block, VisibleFrom(nodes, n, j + 1),
           r + 1 + Offset(Items(nodes, counts, KidsOf(nodes, n)), j),
           r + 1 + Offset(Items(nodes, counts, KidsOf(nodes, n)), j + 1), Top(nodes, n));
  }

  lemma {:induction false} JoinAt(nodes: seq<Node>, counts: seq<int>, ab: seq<nat>, a: seq<nat>, b: seq<nat>,
                                  base: int, mid: int, t: nat)
    requires Wf(nodes) && |counts| == |nodes| && ab == a + b && mid == base + |a|
    requires RowsFrom(nodes, counts, a, base, t) == true && RowsFrom(nodes, counts, b, mid, t) == true
    ensures RowsFrom(nodes, counts, ab, base, t) == true
  {
    RowsFromJoin(nodes, counts, a, b, base, t);
  }

  /** Child `j`'s block opens the rows from child `j` on, and has the span the counts give it. */
  lemma {:induction false} BlockSplit(nodes: seq<Node>, counts: seq<int>, n: nat, j: nat)
    requires Wf(nodes) && Counted(nodes, counts) && n < |nodes| && j < |KidsOf(nodes, n)|
    ensures KidsOf(nodes, n)[j] < |nodes|
    ensures VisibleFrom(nodes, n, j) == Block(nodes, KidsOf(nodes, n)[j]) + VisibleFrom(nodes, n, j + 1)
    ensures |Block(nodes, KidsOf(nodes, n)[j])| == Span(Items(nodes, counts, KidsOf(nodes, n))[j])
  {
    KidInRange(nodes, n, j);
    var c := KidsOf(nodes, n)[j];
    if nodes[c].expanded {
      CountIsVisible(nodes, counts, c);
    }
  }

  /** The row of a child of a shown, expanded node. */
  lemma {:induction false} KidRow(nodes: seq<Node>, counts: seq<int>, n: nat, r: int, j: nat, c: nat, base: int)
    requires Wf(nodes) && |counts| == |nodes| && n < |nodes| && j < |KidsOf(nodes, n)|
    requires nodes[n].expanded && Row(nodes, counts, n) == Some(r)
    requires c == KidsOf(nodes, n)[j] && base == r + 1 + Offset(Items(nodes, counts, KidsOf(nodes, n)), j)
    ensures c < |nodes| && Row(nodes, counts, c) == Some(base) && Top(nodes, c) == Top(nodes, n)
  {
    KidInRange(nodes, n, j);
    assert nodes[c].parent == Some(n) && nodes[c].index == j;
  }

  /** The rows of the `j`-th child of `n` and, when it is expanded, of those below it. */
  lemma {:induction false} BlockRows(nodes: seq<Node>, counts: seq<int>, n: nat, r: int, j: nat)
    returns (block: seq<nat>)
    requires Wf(nodes) && Counted(nodes, counts) && n < |nodes| && j < |KidsOf(nodes, n)|
    requires nodes[n].expanded && Row(nodes, counts, n) == Some(r)
    ensures VisibleFrom(nodes, n, j) == block + VisibleFrom(nodes, n, j + 1)
    ensures |block| == Span(Items(nodes, counts, KidsOf(nodes, n))[j])
    ensures r + 1 + Offset(Items(nodes, counts, KidsOf(nodes, n)), j + 1) ==
            r + 1 + Offset(Items(nodes, counts, KidsOf(nodes, n)), j) + |block|
    ensures RowsFrom(nodes, counts, block, r + 1 + Offset(Items(nodes, counts, KidsOf(nodes, n)), j),
                     Top(nodes, n))
    decreases |nodes| - n, 0, |KidsOf(nodes, n)| - j - 1, 0
  {
    BlockSplit(nodes, counts, n, j);
    var c := KidsOf(nodes, n)[j];
    var base := r + 1 + Offset(Items(nodes, counts, KidsOf(nodes, n)), j);
    KidRow(nodes, counts, n, r, j, c, base);
    BlockRowsOf(nodes, counts, c, base, Top(nodes, n));
    block := Block(nodes, c);
  }

  /** A shown node's block: its own row, then, when it is expanded, the rows below it. */
  lemma {:induction false} BlockRowsOf(nodes: seq<Node>, counts: seq<int>, c: nat, base: int, t: nat)
    requires Wf(nodes) && Counted(nodes, counts) && c < |nodes|
    requires Row(nodes, counts, c) == Some(base) && Top(nodes, c) == t
    ensures RowsFrom(nodes, counts, Block(nodes, c), base, t)
    decreases |nodes| - c, 2, 0, 0
  {
    if nodes[c].expanded {
      RowsOfVisible(nodes, counts, c, base);
      RowsFromCons(nodes, counts, c, Visible(nodes, c), base, t);
    } else {
      RowsFromCons(nodes, counts, c, [], base, t);
    }
  }

  lemma {:induction false} RowsFromCons(nodes: seq<Node>, counts: seq<int>, c: nat, s: seq<nat>, base: int, t: nat)
    requires Wf(nodes) && |counts| == |nodes| && c < |nodes|
    requires Row(nodes, counts, c) == Some(base) && Top(nodes, c) == t && RowsFrom(nodes, counts, s, base + 1, t)
    ensures RowsFrom(nodes, counts, [c] + s, base, t)
  {
    forall i | 0 <= i < |[c] + s|
      ensures ([c] + s)[i] < |nodes| && Row(nodes, counts, ([c] + s)[i]) == Some(base + i) && Top(nodes, ([c] + s)[i]) == t
    {
      if i > 0 {
        assert ([c] + s)[i] == s[i - 1];
      }
    }
  }

  /**
   * The rows below an expanded, shown node `m` sit, in order, among the rows of
   * its top node, right after `m`'s own row.
   */
  lemma {:induction false} VisibleEmbeds(nodes: seq<Node>, counts: seq<int>, m: nat, rm: int)
    requires Wf(nodes) && Counted(nodes, counts) && m < |nodes|
    requires nodes[m].expanded && Row(nodes, counts, m) == Some(rm)
    ensures rm + 1 >= 0 && rm + 1 + |Visible(nodes, m)| <= |Visible(nodes, Top(nodes, m))|
    ensures forall x :: 0 <= x < |Visible(nodes, m)| ==>
      Visible(nodes, Top(nodes, m))[rm + 1 + x] == Visible(nodes, m)[x]
    decreases m
  {
    match nodes[m].parent
    case None =>
    case Some(p) =>
      var rp := Row(nodes, counts, p).value;
      var k := nodes[m].index;
      var o := Offset(Items(nodes, counts, KidsOf(nodes, p)), k);
      VisibleEmbeds(nodes, counts, p, rp);
      VisibleAt(nodes, counts, p, k, m, o);
  }

  /**
   * The round trip row -> node: a node with a parent and a row is the visible
   * row of that number below its top node.
   */
  lemma {:induction false} RowRoundTrip(nodes: seq<Node>, counts: seq<int>, n: nat, r: int)
    requires Wf(nodes) && Counted(nodes, counts) && n < |nodes|
    requires nodes[n].parent.Some? && Row(nodes, counts, n) == Some(r)
    ensures 0 <= r < |Visible(nodes, Top(nodes, n))| && Visible(nodes, Top(nodes, n))[r] == n
  {
    var p := nodes[n].parent.value;
    var rp := Row(nodes, counts, p).value;
    var k := nodes[n].index;
    var o := Offset(Items(nodes, counts, KidsOf(nodes, p)), k);
    VisibleEmbeds(nodes, counts, p, rp);
    VisibleAt(nodes, counts, p, k, n, o);
  }

  // ---- What the cached counts depend on ------------------------------------

  /** The counts of a well-linked arena are determined by its shape and flags. */
  lemma {:induction false} CountsDetermined(nodes: seq<Node>, c1: seq<int>, c2: seq<int>)
    requires Wf(nodes) && Counted(nodes, c1) && Counted(nodes, c2)
    ensures c1 == c2
  {
    forall n | 0 <= n < |nodes| ensures c1[n] == c2[n] {
      CountIsVisible(nodes, c1, n);
      CountIsVisible(nodes, c2, n);
    }
  }

  /** Every node's cached count is its children's rows, except that `y`'s should be `v`. */
  ghost predicate CountedExcept(nodes: seq<Node>, counts: seq<int>, y: nat, v: int)
    requires Wf(nodes)
  {
    |counts| == |nodes| && y < |nodes| &&
    forall n :: 0 <= n < |nodes| ==>
      Total(Items(nodes, counts, KidsOf(nodes, n))) == (if n == y then v else counts[n])
  }

  /** Child `k` of `g` is `q` exactly when `q`'s back-references say so. */
  lemma {:induction false} KidPosition(nodes: seq<Node>, g: nat, k: nat, q: nat)
    requires Wf(nodes) && g < |nodes| && k < |KidsOf(nodes, g)| && q < |nodes|
    ensures KidsOf(nodes, g)[k] == q <==> nodes[q].parent == Some(g) && nodes[q].index == k
  {
  }

  /** Changing the cached count of `q` changes only its parent's total, and only when `q` is expanded. */
  lemma {:induction false} TotalAfterCount(nodes: seq<Node>, counts: seq<int>, q: nat, v: int, g: nat)
    requires Wf(nodes) && |counts| == |nodes| && q < |nodes| && g < |nodes|
    ensures Total(Items(nodes, counts[q := v], KidsOf(nodes, g)))
         == Total(Items(nodes, counts, KidsOf(nodes, g))) +
            (if nodes[q].parent == Some(g) && nodes[q].expanded then v - counts[q] else 0)
  {
    var ks := KidsOf(nodes, g);
    var before := Items(nodes, counts, ks);
    var after := Items(nodes, counts[q := v], ks);
    if nodes[q].parent == Some(g) {
      var k := nodes[q].index;
      assert after == before[k := Item(nodes[q].expanded, v)] by {
        forall j | 0 <= j < |ks| ensures after[j] == before[k := Item(nodes[q].expanded, v)][j] {
          KidPosition(nodes, g, j, q);
        }
      }
      TotalUpdate(before, k, Item(nodes[q].expanded, v));
    } else {
      assert after == before by {
        forall j | 0 <= j < |ks| ensures after[j] == before[j] {
          KidPosition(nodes, g, j, q);
        }
      }
    }
  }

  /** Two arenas that differ at most in flags: same identities, children, parents and positions. */
  ghost predicate SameShape(a: seq<Node>, b: seq<Node>) {
    |a| == |b| &&
    forall i :: 0 <= i < |a| ==>
      a[i].id == b[i].id && a[i].kids == b[i].kids && a[i].parent == b[i].parent && a[i].index == b[i].index
  }

  lemma {:induction false} SameShapeWf(a: seq<Node>, b: seq<Node>)
    requires Wf(a) && SameShape(a, b)
    ensures Wf(b)
    ensures forall q :: 0 <= q < |b| ==> KidsOf(b, q) == KidsOf(a, q)
  {
    assert forall q :: 0 <= q < |b| ==> KidsOf(b, q) == KidsOf(a, q);
    forall q | 0 <= q < |b| && (forall j :: 0 <= j < |KidsOf(b, q)| ==> KidsOf(b, q)[j] < |b|)
      ensures Diff.Distinct(Ids(b, KidsOf(b, q)))
    {
      assert Ids(b, KidsOf(b, q)) == Ids(a, KidsOf(a, q));
    }
  }

  /** Flags do not move a node's top. */
  lemma {:induction false} SameTop(a: seq<Node>, b: seq<Node>, n: nat)
    requires Wf(a) && SameShape(a, b) && n < |a|
    ensures Wf(b) && Top(a, n) == Top(b, n)
    decreases n
  {
    SameShapeWf(a, b);
    if a[n].parent.Some? {
      SameTop(a, b, a[n].parent.value);
    }
  }

  /** `isExpanded` of `x` set to `v`, nothing else changed. */
  function Flip(nodes: seq<Node>, x: nat, v: bool): (r: seq<Node>)
    requires x < |nodes|
    ensures SameShape(nodes, r)
  {
    nodes[x := nodes[x].(expanded := v)]
  }

  /** Flipping `x`'s flag changes only its parent's total, by `x`'s count. */
  lemma {:induction false} TotalAfterFlip(nodes: seq<Node>, counts: seq<int>, x: nat, v: bool, g: nat)
    requires Wf(nodes) && |counts| == |nodes| && x < |nodes| && g < |nodes|
    ensures Wf(Flip(nodes, x, v)) && KidsOf(Flip(nodes, x, v), g) == KidsOf(nodes, g)
    ensures Total(Items(Flip(nodes, x, v), counts, KidsOf(nodes, g)))
         == Total(Items(nodes, counts, KidsOf(nodes, g))) +
            (if nodes[x].parent == Some(g) then Span(Item(v, counts[x])) - Span(Item(nodes[x].expanded, counts[x])) else 0)
  {
    var f := Flip(nodes, x, v);
    SameShapeWf(nodes, f);
    var ks := KidsOf(nodes, g);
    var before := Items(nodes, counts, ks);
    var after := Items(f, counts, ks);
    if nodes[x].parent == Some(g) {
      var k := nodes[x].index;
      assert after == before[k := Item(v, counts[x])] by {
        forall j | 0 <= j < |ks| ensures after[j] == before[k := Item(v, counts[x])][j] {
          KidPosition(nodes, g, j, x);
        }
      }
      TotalUpdate(before, k, Item(v, counts[x]));
    } else {
      assert after == before by {
        forall j | 0 <= j < |ks| ensures after[j] == before[j] {
          KidPosition(nodes, g, j, x);
        }
      }
    }
  }

  // ---- Ancestors -----------------------------------------------------------

  /** `a` is `x` itself or one of its ancestors. */
  ghost predicate Above(nodes: seq<Node>, a: nat, x: nat)
    requires Wf(nodes) && x < |nodes|
    decreases x
  {
    a == x || (nodes[x].parent.Some? && Above(nodes, a, nodes[x].parent.value))
  }

  lemma {:induction false} AboveBelow(nodes: seq<Node>, a: nat, x: nat)
    requires Wf(nodes) && x < |nodes| && Above(nodes, a, x)
    ensures a <= x
    decreases x
  {
    if a != x {
      AboveBelow(nodes, a, nodes[x].parent.value);
    }
  }

  /** A node is never an ancestor of a node before it. */
  lemma {:induction false} AfterNotAbove(nodes: seq<Node>, a: nat, x: nat)
    requires Wf(nodes) && x < |nodes| && x < a
    ensures !Above(nodes, a, x)
    decreases x
  {
    if nodes[x].parent.Some? {
      AfterNotAbove(nodes, a, nodes[x].parent.value);
    }
  }

  /** The parent of an ancestor is an ancestor. */
  lemma {:induction false} AboveParent(nodes: seq<Node>, a: nat, z: nat)
    requires Wf(nodes) && z < |nodes| && a < |nodes| && Above(nodes, a, z) && nodes[a].parent.Some?
    ensures Above(nodes, nodes[a].parent.value, z)
    decreases z
  {
    if a != z {
      AboveParent(nodes, a, nodes[z].parent.value);
    }
  }

  /** Of the children of one node, at most one is an ancestor of `z`. */
  lemma {:induction false} OneKidAbove(nodes: seq<Node>, y: nat, x: nat, z: nat)
    requires Wf(nodes) && z < |nodes| && y < |nodes| && x < |nodes|
    requires Above(nodes, y, z) && Above(nodes, x, z)
    requires nodes[y].parent.Some? && nodes[y].parent == nodes[x].parent
    ensures y == x
    decreases z
  {
    if y == z {
      if x != y {
        AboveBelow(nodes, x, nodes[z].parent.value);
      }
    } else if x == z {
      AboveBelow(nodes, y, nodes[z].parent.value);
    } else {
      OneKidAbove(nodes, y, x, nodes[z].parent.value);
    }
  }

  /**
   * The row of a node on `z`'s ancestor chain reads no flag of `z` and no count
   * on the chain: changing only those leaves it where it was.
   */
  lemma {:induction false} RowFrame(a: seq<Node>, ca: seq<int>, b: seq<Node>, cb: seq<int>, z: nat, x: nat)
    requires Wf(a) && SameShape(a, b) && |ca| == |a| && |cb| == |b|
    requires z < |a| && x < |a| && Above(a, x, z)
    requires forall y :: 0 <= y < |a| && y != z ==> a[y].expanded == b[y].expanded
    requires forall y :: 0 <= y < |a| && !Above(a, y, z) ==> ca[y] == cb[y]
    ensures Wf(b) && Row(a, ca, x) == Row(b, cb, x)
    decreases x
  {
    SameShapeWf(a, b);
    if a[x].parent.Some? {
      AboveParent(a, x, z);
      AboveBelow(a, x, z);
      var q := a[x].parent.value;
      RowFrame(a, ca, b, cb, z, q);
      OffsetFrame(a, ca, b, cb, z, x);
      assert q != z;
      RowStep(a, ca, b, cb, x, q);
    }
  }

  /** A node's row follows from its parent's row, flag and its own offset among the siblings. */
  lemma {:induction false} RowStep(a: seq<Node>, ca: seq<int>, b: seq<Node>, cb: seq<int>, x: nat, q: nat)
    requires Wf(a) && Wf(b) && |ca| == |a| && |cb| == |b| && x < |a| && x < |b|
    requires a[x].parent == Some(q) && b[x].parent == Some(q) && a[x].index == b[x].index
    requires a[q].expanded == b[q].expanded && Row(a, ca, q) == Row(b, cb, q)
    requires Offset(Items(a, ca, KidsOf(a, q)), a[x].index) == Offset(Items(b, cb, KidsOf(b, q)), a[x].index)
    ensures Row(a, ca, x) == Row(b, cb, x)
  {
  }

  /** The siblings before a node on `z`'s ancestor chain keep their spans. */
  lemma {:induction false} OffsetFrame(a: seq<Node>, ca: seq<int>, b: seq<Node>, cb: seq<int>, z: nat, x: nat)
    requires Wf(a) && SameShape(a, b) && |ca| == |a| && |cb| == |b|
    requires z < |a| && x < |a| && Above(a, x, z) && a[x].parent.Some?
    requires forall y :: 0 <= y < |a| && y != z ==> a[y].expanded == b[y].expanded
    requires forall y :: 0 <= y < |a| && !Above(a, y, z) ==> ca[y] == cb[y]
    ensures Wf(b) && a[x].index <= |KidsOf(a, a[x].parent.value)|
    ensures Offset(Items(a, ca, KidsOf(a, a[x].parent.value)), a[x].index) ==
            Offset(Items(b, cb, KidsOf(b, a[x].parent.value)), a[x].index)
  {
    SameShapeWf(a, b);
    var q := a[x].parent.value;
    var ks := KidsOf(a, q);
    var ix := a[x].index;
    var ia := Items(a, ca, ks);
    var ib := Items(b, cb, ks);
    assert KidsOf(b, q) == ks;
    assert ia[..ix] == ib[..ix] by {
      forall k | 0 <= k < ix ensures ia[k] == ib[k] {
        var y := ks[k];
        if Above(a, y, z) {
          OneKidAbove(a, y, x, z);
        }
      }
    }
    OffsetPrefix(ia, ix, ix);
    OffsetPrefix(ib, ix, ix);
  }

  // ---- Passing a count change up -------------------------------------------

  /**
   * Between two steps of the `descendantCount` observer: every node's count
   * matches its children, except the parent of `x`, which is `d` short when `x`
   * is expanded.
   */
  ghost predicate Pending(nodes: seq<Node>, counts: seq<int>, x: nat, d: int)
    requires Wf(nodes) && |counts| == |nodes| && x < |nodes|
  {
    forall n :: 0 <= n < |nodes| ==>
      Total(Items(nodes, counts, KidsOf(nodes, n))) ==
      counts[n] + (if nodes[x].parent == Some(n) && nodes[x].expanded then d else 0)
  }

  /** Storing the value `y` should have leaves its parent short by the change. */
  lemma {:induction false} PendingStart(nodes: seq<Node>, counts: seq<int>, y: nat, v: int)
    requires Wf(nodes) && CountedExcept(nodes, counts, y, v)
    ensures Pending(nodes, counts[y := v], y, v - counts[y])
  {
    forall n | 0 <= n < |nodes|
      ensures Total(Items(nodes, counts[y := v], KidsOf(nodes, n))) ==
              counts[y := v][n] + (if nodes[y].parent == Some(n) && nodes[y].expanded then v - counts[y] else 0)
    {
      TotalAfterCount(nodes, counts, y, v, n);
    }
  }

  /** One node's total once `d` is added to the count of `x`'s parent `q`. */
  lemma {:induction false} PendingStepAt(nodes: seq<Node>, counts: seq<int>, x: nat, q: nat, d: int, n: nat)
    requires Wf(nodes) && |counts| == |nodes| && x < |nodes| && n < |nodes|
    requires nodes[x].expanded && nodes[x].parent == Some(q)
    requires Total(Items(nodes, counts, KidsOf(nodes, n))) ==
             counts[n] + (if nodes[x].parent == Some(n) then d else 0)
    ensures Total(Items(nodes, counts[q := counts[q] + d], KidsOf(nodes, n))) ==
      counts[q := counts[q] + d][n] + (if nodes[q].parent == Some(n) && nodes[q].expanded then d else 0)
  {
    TotalAfterCount(nodes, counts, q, counts[q] + d, n);
    if n == q {
      assert nodes[q].parent != Some(q);
    }
  }

  /** Adding `d` to the parent's count moves the shortfall one level up. */
  lemma {:induction false} PendingStep(nodes: seq<Node>, counts: seq<int>, x: nat, q: nat, d: int)
    requires Wf(nodes) && |counts| == |nodes| && x < |nodes| && Pending(nodes, counts, x, d)
    requires nodes[x].expanded && nodes[x].parent == Some(q)
    ensures Pending(nodes, counts[q := counts[q] + d], q, d)
  {
    forall n | 0 <= n < |nodes|
      ensures Total(Items(nodes, counts[q := counts[q] + d], KidsOf(nodes, n))) ==
        counts[q := counts[q] + d][n] + (if nodes[q].parent == Some(n) && nodes[q].expanded then d else 0)
    {
      PendingStepAt(nodes, counts, x, q, d, n);
    }
  }

  /** The observer stops at a collapsed node, an unchanged value or a node without parent: all counts match. */
  lemma {:induction false} PendingDone(nodes: seq<Node>, counts: seq<int>, x: nat, d: int)
    requires Wf(nodes) && |counts| == |nodes| && x < |nodes| && Pending(nodes, counts, x, d)
    requires !nodes[x].expanded || d == 0 || nodes[x].parent.None?
    ensures Counted(nodes, counts)
  {
    forall n | 0 <= n < |nodes| ensures Local(nodes, counts, n) {
    }
  }

  /** Flipping the flag of a node without rows changes no total. */
  lemma {:induction false} FlipEmpty(nodes: seq<Node>, counts: seq<int>, x: nat, v: bool)
    requires Wf(nodes) && Counted(nodes, counts) && x < |nodes| && counts[x] == 0
    ensures Wf(Flip(nodes, x, v)) && Counted(Flip(nodes, x, v), counts)
  {
    var f := Flip(nodes, x, v);
    SameShapeWf(nodes, f);
    forall n | 0 <= n < |nodes| ensures Local(f, counts, n) {
      TotalAfterFlip(nodes, counts, x, v, n);
      assert Local(nodes, counts, n);
    }
  }

  /** Flipping the flag of a node leaves its parent off by the node's count, and no other. */
  lemma {:induction false} FlipPending(nodes: seq<Node>, counts: seq<int>, x: nat, v: bool)
    requires Wf(nodes) && Counted(nodes, counts) && x < |nodes| && nodes[x].expanded != v
    ensures Wf(Flip(nodes, x, v))
    ensures nodes[x].parent.None? ==> Counted(Flip(nodes, x, v), counts)
    ensures nodes[x].parent.Some? ==>
      var q := nodes[x].parent.value;
      CountedExcept(Flip(nodes, x, v), counts, q, counts[q] + (if v then counts[x] else -counts[x]))
  {
    var f := Flip(nodes, x, v);
    SameShapeWf(nodes, f);
    forall n | 0 <= n < |nodes|
      ensures Total(Items(f, counts, KidsOf(f, n))) ==
              counts[n] + (if nodes[x].parent == Some(n) then (if v then counts[x] else -counts[x]) else 0)
    {
      TotalAfterFlip(nodes, counts, x, v, n);
      assert Local(nodes, counts, n);
    }
  }

  /** A new loose node without children joins the arena with a zero count. */
  lemma {:induction false} AppendLoose(nodes: seq<Node>, counts: seq<int>, node: Node)
    requires Wf(nodes) && Counted(nodes, counts) && node.kids.None? && node.parent.None?
    ensures Wf(nodes + [node]) && Counted(nodes + [node], counts + [0])
    ensures forall q :: 0 <= q < |nodes| ==> KidsOf(nodes + [node], q) == KidsOf(nodes, q)
  {
    var a := nodes + [node];
    var c := counts + [0];
    assert forall q :: 0 <= q < |nodes| ==> KidsOf(a, q) == KidsOf(nodes, q);
    assert ChildLinks(a);
    assert ParentLinks(a);
    forall q | 0 <= q < |a| && (forall j :: 0 <= j < |KidsOf(a, q)| ==> KidsOf(a, q)[j] < |a|)
      ensures Diff.Distinct(Ids(a, KidsOf(a, q)))
    {
      if q < |nodes| {
        assert Ids(a, KidsOf(a, q)) == Ids(nodes, KidsOf(nodes, q));
      }
    }
    forall q | 0 <= q < |a| ensures Local(a, c, q) {
      if q < |nodes| {
        assert Items(a, c, KidsOf(a, q)) == Items(nodes, counts, KidsOf(nodes, q));
        assert Local(nodes, counts, q);
      }
    }
  }
}
