/**
 * `TreeNode` as a class: all the nodes of one tree controller live in one arena
 * object whose fields are the nodes' stored properties, and whose methods are
 * the property setters with their observers (TreeController.swift). The table
 * view the nodes talk to is the `table` log.
 */
module TreeNodes {
  import opened Wrappers
  import opened RowMath
  import opened TreeModel
  import opened Children
  import opened Transition
  import Diff
  import Laws

  /** A node as the app builds it before handing it over. */
  datatype Tree = Tree(id: int, expandable: bool, expanded: bool, children: Kids)

  /** A node's `children`: nil until loaded, or an array of nodes. */
  datatype Kids = NotLoaded | Loaded(trees: seq<Tree>)

  function ChildIds(cs: seq<Tree>): (r: seq<int>)
    ensures |r| == |cs|
  {
    seq(|cs|, k requires 0 <= k < |cs| => cs[k].id)
  }

  /** Siblings have distinct identities, at every level. */
  predicate Buildable(t: Tree)
    decreases t
  {
    match t.children
    case NotLoaded => true
    case Loaded(cs) => Diff.Distinct(ChildIds(cs)) && forall c :: c in cs ==> Buildable(c)
  }

  class Forest {
    /** Identity, tag, `isExpanded`, `children`, `parent` and `index` of every node. */
    var nodes: seq<Node>
    /** `descendantCount` of every node. */
    var counts: seq<int>
    /** `estimatedHeight` of every node. */
    var heights: seq<Option<int>>
    /** The controller's `rootNode`. */
    var root: Option<nat>
    /** What the controller's table view has been told, in order. */
    var table: seq<Command>

    ghost predicate Valid()
      reads this
    {
      Wf(nodes) && Counted(nodes, counts) && |heights| == |nodes| &&
      (root.Some? ==> root.value < |nodes|)
    }

    /** A controller with no `rootNode` and no nodes yet. */
    constructor ()
      ensures Valid() && nodes == [] && root == None && table == []
    {
      nodes := [];
      counts := [];
      heights := [];
      root := None;
      table := [];
    }

    /**
     * The app creating the nodes of `t`: every node is new and loose, with a
     * zero count and no height, and each level's `children` is assigned once its
     * nodes exist. Nothing is attached to the controller, so the table hears nothing.
     */
    method Build(t: Tree) returns (n: nat)
      requires Valid() && Buildable(t)
      modifies this`nodes, this`counts, this`heights
      ensures Valid() && n == old(|nodes|) < |nodes|
      ensures nodes[..n] == old(nodes) && counts[..n] == old(counts) && heights[..n] == old(heights)
      ensures forall i :: n <= i < |heights| ==> heights[i] == None
      ensures nodes[n].parent.None? && nodes[n].id == t.id
      ensures nodes[n].expandable == t.expandable && nodes[n].expanded == t.expanded
      ensures nodes[n].kids.Some? == t.children.Loaded?
      ensures t.children.Loaded? ==> Ids(nodes, KidsOf(nodes, n)) == ChildIds(t.children.trees)
    {
      var ns, cs;
      ns, cs, n := Grow(nodes, counts, t);
      heights := heights + seq(|ns| - |nodes|, _ => None);
      nodes, counts := ns, cs;
    }

    /**
     * The arena and counts once the nodes of `t` exist: the new node is
     * appended, then its subtrees, then its `children` are assigned. The new nodes
     * are not under the controller's root, so their transitions issue nothing.
     */
    static method Grow(nodes: seq<Node>, counts: seq<int>, t: Tree) returns (ns: seq<Node>, cs: seq<int>, n: nat)
      requires Wf(nodes) && Counted(nodes, counts) && Buildable(t)
      ensures Wf(ns) && Counted(ns, cs) && n == |nodes| < |ns|
      ensures ns[..n] == nodes && cs[..n] == counts
      ensures ns[n].parent.None? && ns[n].id == t.id
      ensures ns[n].expandable == t.expandable && ns[n].expanded == t.expanded
      ensures ns[n].kids.Some? == t.children.Loaded?
      ensures t.children.Loaded? ==> Ids(ns, KidsOf(ns, n)) == ChildIds(t.children.trees)
      decreases t, 1
    {
      n := |nodes|;
      var node := Node(t.id, t.expandable, t.expanded, None, None, 0);
      AppendLoose(nodes, counts, node);
      ns, cs := nodes + [node], counts + [0];
      match t.children
      case NotLoaded =>
      case Loaded(trees) =>
        var ks;
        ns, cs, ks := GrowKids(ns, cs, t);
        assert Ids(ns, ks) == ChildIds(trees);
        ghost var before, counts0 := ns, cs;
        assert before[n] == node;
        ns, cs := Assign(ns, cs, n, Some(ks));
        BuiltBelow(before, n, ks, ns);
        assert ns[..n] == before[..n];
        assert cs[..n] == counts0[..n] by {
          forall i | 0 <= i < n ensures cs[i] == counts0[i] {
            assert !Above(ns, i, n);
          }
        }
    }

    /** The subtrees of `t` built one after the other, appended after `nodes`; their nodes are loose. */
    static method GrowKids(nodes: seq<Node>, counts: seq<int>, t: Tree) returns (ns: seq<Node>, cs: seq<int>, ks: seq<nat>)
      requires Wf(nodes) && Counted(nodes, counts) && Buildable(t) && t.children.Loaded?
      ensures Wf(ns) && Counted(ns, cs) && |nodes| <= |ns|
      ensures ns[..|nodes|] == nodes && cs[..|nodes|] == counts
      ensures |ks| == |t.children.trees|
      ensures forall j :: 0 <= j < |ks| ==>
        |nodes| <= ks[j] < |ns| && ns[ks[j]].parent.None? && ns[ks[j]].id == t.children.trees[j].id
      decreases t, 0
    {
      var trees := t.children.trees;
      ns, cs, ks := nodes, counts, [];
      for k := 0 to |trees|
        invariant Wf(ns) && Counted(ns, cs) && |nodes| <= |ns| && |ks| == k
        invariant ns[..|nodes|] == nodes && cs[..|nodes|] == counts
        invariant forall j :: 0 <= j < k ==> |nodes| <= ks[j] < |ns| && ns[ks[j]].parent.None? && ns[ks[j]].id == trees[j].id
      {
        ghost var m := |ns|;
        ghost var before := ns;
        var c;
        assert trees[k] in trees;
        ns, cs, c := Grow(ns, cs, trees[k]);
        assert forall j :: 0 <= j < k ==> ns[ks[j]] == ns[..m][ks[j]];
        assert ns[..|nodes|] == ns[..m][..|nodes|];
        assert cs[..|nodes|] == cs[..m][..|nodes|];
        ks := ks + [c];
      }
    }

    /**
     * `p.children = kids`, with its observer: the old children are detached,
     * the new ones linked at their positions, `descendantCount` is recomputed
     * (and passed up), and the table is told what changed under `p`. The new
     * children must lie after `p` in the arena, be loose or already `p`'s, and
     * have distinct identities.
     */
    method AssignChildren(p: nat, kids: Option<seq<nat>>, changed: (nat, nat) -> bool)
      requires Valid() && p < |nodes| && Assignable(nodes, p, kids)
      modifies this`nodes, this`counts, this`heights, this`table
      ensures Valid()
      ensures nodes == Relink(old(nodes), p, kids)
      ensures forall n :: 0 <= n < |nodes| && !Above(nodes, n, p) ==> counts[n] == old(counts)[n]
      ensures heights == ApplyCopies(old(heights), TransitionEffects(nodes, counts, root, changed, p, old(KidsOf(nodes, p))).copies)
      ensures table == old(table) + TransitionEffects(nodes, counts, root, changed, p, old(KidsOf(nodes, p))).commands
      ensures kids == old(nodes[p].kids) && (forall a: nat :: !changed(a, a)) ==>
                nodes == old(nodes) && counts == old(counts) && heights == old(heights) && table == old(table)
    {
      var olds := KidsOf(nodes, p);
      forall k | 0 <= k < |olds| ensures olds[k] < |nodes| {
        KidInRange(nodes, p, k);
      }
      var ns, cs := Assign(nodes, counts, p, kids);
      if kids == nodes[p].kids && (forall a: nat :: !changed(a, a)) {
        Laws.AssignSameQuiet(nodes, counts, root, changed, p, heights, ns, cs);
      }
      nodes, counts := ns, cs;
      var hs, cmds := Transition(nodes, counts, root, changed, p, olds, heights);
      heights, table := hs, table + cmds;
    }

    /** The arena and the counts once `p.children = kids` and the observers of the counts have run. */
    static method Assign(nodes: seq<Node>, counts: seq<int>, p: nat, kids: Option<seq<nat>>) returns (ns: seq<Node>, cs: seq<int>)
      requires Wf(nodes) && Counted(nodes, counts) && p < |nodes| && Assignable(nodes, p, kids)
      ensures ns == Relink(nodes, p, kids) && Wf(ns) && Counted(ns, cs)
      ensures forall n :: 0 <= n < |ns| && !Above(ns, n, p) ==> cs[n] == counts[n]
    {
      var olds := KidsOf(nodes, p);
      forall k | 0 <= k < |olds| ensures olds[k] < |nodes| {
        KidInRange(nodes, p, k);
      }
      ns := DetachAll(nodes[p := nodes[p].(kids := kids)], olds);
      var count;
      ns, count := LinkAll(ns, p, kids.GetOr([]), nodes, counts);
      RelinkCounted(nodes, counts, p, kids);
      cs := Recount(ns, counts, p, count);
    }

    /** The observer's first loop: every old child loses its parent. */
    static method DetachAll(stored: seq<Node>, olds: seq<nat>) returns (ns: seq<Node>)
      requires forall k :: 0 <= k < |olds| ==> olds[k] < |stored|
      ensures ns == Detach(stored, olds)
    {
      ns := stored;
      for k := 0 to |olds|
        invariant ns == Detach(stored, olds[..k])
      {
        assert olds[..k + 1][..k] == olds[..k];
        var c := olds[k];
        ns := ns[c := ns[c].(parent := None)];
      }
      assert olds[..|olds|] == olds;
    }

    /**
     * The observer's second loop: every new child gets `p` as parent and its
     * position as index, and the count adds up one row per child plus an
     * expanded child's own count.
     */
    static method LinkAll(detached: seq<Node>, p: nat, ks: seq<nat>, nodes: seq<Node>, counts: seq<int>)
      returns (ns: seq<Node>, count: int)
      requires |detached| == |nodes| == |counts| && forall k :: 0 <= k < |ks| ==> ks[k] < |nodes|
      ensures ns == Link(detached, p, ks, |ks|)
      ensures count == Total(Items(nodes, counts, ks))
    {
      ns := detached;
      count := |ks|;
      ghost var items := Items(nodes, counts, ks);
      for j := 0 to |ks|
        invariant ns == Link(detached, p, ks, j)
        invariant count == |ks| - j + Offset(items, j)
      {
        var c := ks[j];
        ns := ns[c := ns[c].(parent := Some(p), index := j)];
        count := count + (if nodes[c].expanded then counts[c] else 0);
      }
    }

    /**
     * `descendantCount = v` with its observer: when the node is expanded and the
     * value changed, the parent's count moves by the same amount, and so on up.
     * Every count other than `y`'s must already match its children.
     */
    method SetCount(y: nat, v: int)
      requires Wf(nodes) && CountedExcept(nodes, counts, y, v)
      modifies this`counts
      ensures Counted(nodes, counts)
      ensures forall n :: 0 <= n < |nodes| && !Above(nodes, n, y) ==> counts[n] == old(counts)[n]
    {
      counts := Recount(nodes, counts, y, v);
    }

    /** The counts once `descendantCount` of `y` is set to `v` and its observers have run. */
    static method Recount(nodes: seq<Node>, counts: seq<int>, y: nat, v: int) returns (r: seq<int>)
      requires Wf(nodes) && CountedExcept(nodes, counts, y, v)
      ensures Counted(nodes, r)
      ensures forall n :: 0 <= n < |nodes| && !Above(nodes, n, y) ==> r[n] == counts[n]
    {
      PendingStart(nodes, counts, y, v);
      r := PassUp(nodes, counts[y := v], y, v - counts[y], counts);
    }

    /**
     * The observer's chain: while the node is expanded, the change is not zero
     * and there is a parent, add the change to the parent's count and go on from there.
     */
    static method PassUp(nodes: seq<Node>, start: seq<int>, y: nat, d: int, ghost before: seq<int>) returns (counts: seq<int>)
      requires Wf(nodes) && |start| == |nodes| == |before| && y < |nodes| && Pending(nodes, start, y, d)
      requires forall n :: 0 <= n < |nodes| && n != y ==> start[n] == before[n]
      ensures Counted(nodes, counts)
      ensures forall n :: 0 <= n < |nodes| && !Above(nodes, n, y) ==> counts[n] == before[n]
    {
      counts := start;
      var x: nat := y;
      while nodes[x].expanded && d != 0 && nodes[x].parent.Some?
        invariant x < |nodes| && |counts| == |nodes| && Above(nodes, x, y)
        invariant Pending(nodes, counts, x, d)
        invariant forall n :: 0 <= n < |nodes| && !Above(nodes, n, y) ==> counts[n] == before[n]
        decreases x
      {
        var q := nodes[x].parent.value;
        PendingStep(nodes, counts, x, q, d);
        AboveParent(nodes, x, y);
        counts := counts[q := counts[q] + d];
        x := q;
      }
      PendingDone(nodes, counts, x, d);
    }

    /**
     * `isExpanded = v` with its observer. Without children it only asks for
     * them (`lazyLoad()`) when expanding. Otherwise, if the flag changed, the
     * parent's count moves by the node's count, and a node shown under the root
     * has its rows `1...descendantCount` past its own row inserted or deleted.
     * That range must not be empty, or the source traps.
     */
    method SetExpanded(x: nat, v: bool)
      requires Valid() && x < |nodes|
      requires (nodes[x].kids.Some? && nodes[x].expanded != v &&
                root == Some(Top(nodes, x)) && Row(nodes, counts, x).Some?) ==> counts[x] >= 1
      modifies this`nodes, this`counts, this`table
      ensures Valid()
      ensures nodes == Flip(old(nodes), x, v)
      ensures forall n :: 0 <= n < |nodes| && (n == x || !Above(nodes, n, x)) ==> counts[n] == old(counts)[n]
      ensures table == old(table) +
        if nodes[x].kids.None? then (if v then [LazyLoad(x)] else [])
        else if old(nodes[x].expanded) == v then []
        else ToggleCommands(nodes, counts, root, x)
    {
      var ns, cs, cmds := Toggle(nodes, counts, root, x, v);
      nodes, counts, table := ns, cs, table + cmds;
    }

    /** The new arena, counts and commands of `isExpanded = v` on `x`. */
    static method Toggle(nodes: seq<Node>, counts: seq<int>, root: Option<nat>, x: nat, v: bool)
      returns (ns: seq<Node>, cs: seq<int>, cmds: seq<Command>)
      requires Wf(nodes) && Counted(nodes, counts) && x < |nodes|
      requires (nodes[x].kids.Some? && nodes[x].expanded != v &&
                root == Some(Top(nodes, x)) && Row(nodes, counts, x).Some?) ==> counts[x] >= 1
      ensures ns == Flip(nodes, x, v) && Wf(ns) && Counted(ns, cs)
      ensures forall n :: 0 <= n < |ns| && (n == x || !Above(ns, n, x)) ==> cs[n] == counts[n]
      ensures cmds ==
        if nodes[x].kids.None? then (if v then [LazyLoad(x)] else [])
        else if nodes[x].expanded == v then []
        else ToggleCommands(ns, cs, root, x)
    {
      ns := Flip(nodes, x, v);
      cs := counts;
      cmds := [];
      SameShapeWf(nodes, ns);
      if nodes[x].kids.None? {
        assert Local(nodes, counts, x);
        FlipEmpty(nodes, counts, x, v);
        if v {
          cmds := [LazyLoad(x)];
        }
      } else if nodes[x].expanded == v {
        assert ns == nodes;
      } else {
        FlipPending(nodes, counts, x, v);
        if nodes[x].parent.Some? {
          var q := nodes[x].parent.value;
          cs := Recount(ns, counts, q, counts[q] + (if v then counts[x] else -counts[x]));
          assert forall n :: 0 <= n < |ns| && Above(ns, n, q) ==> Above(ns, n, x);
          AfterNotAbove(ns, x, q);
        }
        ToggleFrame(nodes, counts, ns, cs, root, x, v);
        cmds := ToggleRows(ns, cs, root, x);
      }
    }

    /** The rows `1...descendantCount` past `x`'s own row, inserted or deleted as `x` is now expanded or not. */
    static method ToggleRows(nodes: seq<Node>, counts: seq<int>, root: Option<nat>, x: nat) returns (cmds: seq<Command>)
      requires Wf(nodes) && |counts| == |nodes| && x < |nodes|
      requires root == Some(Top(nodes, x)) && Row(nodes, counts, x).Some? ==> counts[x] >= 1
      ensures cmds == ToggleCommands(nodes, counts, root, x)
    {
      cmds := [];
      var row := Row(nodes, counts, x);
      if root == Some(Top(nodes, x)) && row.Some? {
        var shown := SubtreeRows(row.value, counts[x]);
        cmds := [if nodes[x].expanded then InsertRows(shown) else DeleteRows(shown)];
      }
    }

    /** `indexPaths(rowsShift: row)` over `1...count`: the rows right below `row`. */
    static method SubtreeRows(row: int, count: int) returns (shown: set<int>)
      requires count >= 1
      ensures shown == RowRange(row + 1, row + count)
    {
      var rows := IndexPaths(Closed(1, count), row);
      shown := set r | r in rows;
      assert shown == RowRange(row + 1, row + count);
    }

    /**
     * `p.performTransition(from:)`: when `p` is live, diff the old children
     * against the new ones and carry out each record, in order.
     */
    method PerformTransition(p: nat, from: seq<nat>, changed: (nat, nat) -> bool)
      requires Valid() && p < |nodes| && forall k :: 0 <= k < |from| ==> from[k] < |nodes|
      modifies this`heights, this`table
      ensures heights == ApplyCopies(old(heights), TransitionEffects(nodes, counts, root, changed, p, from).copies)
      ensures table == old(table) + TransitionEffects(nodes, counts, root, changed, p, from).commands
    {
      var hs, cmds := Transition(nodes, counts, root, changed, p, from, heights);
      heights, table := hs, table + cmds;
    }

    /** The heights and the commands of `p.performTransition(from:)`. */
    static method Transition(nodes: seq<Node>, counts: seq<int>, root: Option<nat>, changed: (nat, nat) -> bool,
                             p: nat, from: seq<nat>, heights: seq<Option<int>>)
      returns (hs: seq<Option<int>>, cmds: seq<Command>)
      requires Wf(nodes) && Counted(nodes, counts) && |heights| == |nodes| && p < |nodes|
      requires forall k :: 0 <= k < |from| ==> from[k] < |nodes|
      ensures hs == ApplyCopies(heights, TransitionEffects(nodes, counts, root, changed, p, from).copies)
      ensures cmds == TransitionEffects(nodes, counts, root, changed, p, from).commands
      decreases |nodes| - p, 2
    {
      hs, cmds := heights, [];
      if nodes[p].expanded && root == Some(Top(nodes, p)) {
        var row := Row(nodes, counts, p);
        if row.Some? {
          var to := KidsOf(nodes, p);
          KidsDistinct(nodes, p);
          var records := Diff.Changes(Ids(nodes, from), Ids(nodes, to));
          Diff.RecordsInRange(Ids(nodes, from), Ids(nodes, to));
          for k := 0 to |records|
            invariant |hs| == |nodes|
            invariant hs == ApplyCopies(heights, RecordsEffects(nodes, counts, root, changed, p, from, records, k).copies)
            invariant cmds == RecordsEffects(nodes, counts, root, changed, p, from, records, k).commands
          {
            ghost var e := RecordsEffects(nodes, counts, root, changed, p, from, records, k);
            ghost var f := RecordEffects(nodes, counts, root, changed, p, from, records[k]);
            var hs', more := CarryOut(nodes, counts, root, changed, p, from, records[k], hs);
            ApplyCopiesJoin(heights, e.copies, f.copies);
            hs, cmds := hs', cmds + more;
          }
        }
      }
    }

    /** One record of `performTransition`'s diff. */
    static method CarryOut(nodes: seq<Node>, counts: seq<int>, root: Option<nat>, changed: (nat, nat) -> bool,
                           p: nat, from: seq<nat>, c: Diff.Change, heights: seq<Option<int>>)
      returns (hs: seq<Option<int>>, cmds: seq<Command>)
      requires Wf(nodes) && Counted(nodes, counts) && |heights| == |nodes| && p < |nodes|
      requires forall k :: 0 <= k < |from| ==> from[k] < |nodes|
      requires Live(nodes, counts, root, p) && Diff.InRange(c, |from|, |KidsOf(nodes, p)|)
      ensures hs == ApplyCopies(heights, RecordEffects(nodes, counts, root, changed, p, from, c).copies)
      ensures cmds == RecordEffects(nodes, counts, root, changed, p, from, c).commands
      decreases |nodes| - p, 1
    {
      if c.Update? {
        hs, cmds := CarryUpdate(nodes, counts, root, changed, p, from, c.oldIndex, c.newIndex, heights);
        return;
      }
      var shift := Row(nodes, counts, p).value + 1;
      var to := KidsOf(nodes, p);
      ItemsOfCounted(nodes, counts, from);
      ItemsOfCounted(nodes, counts, to);
      hs := heights;
      match c
      case Delete(o) =>
        var rows := RowsOf(Items(nodes, counts, from), o, shift);
        cmds := [DeleteRows(rows)];
      case Insert(i) =>
        var rows := RowsOf(Items(nodes, counts, to), i, shift);
        cmds := [InsertRows(rows)];
      case Move(o, i) =>
        var oldRows := RowsOf(Items(nodes, counts, from), o, shift);
        var newRows := RowsOf(Items(nodes, counts, to), i, shift);
        cmds := [DeleteRows(oldRows), InsertRows(newRows)];
    }

    /** An `update` record: the height moves to the new node, whose children are diffed in turn. */
    static method CarryUpdate(nodes: seq<Node>, counts: seq<int>, root: Option<nat>, changed: (nat, nat) -> bool,
                              p: nat, from: seq<nat>, o: nat, i: nat, heights: seq<Option<int>>)
      returns (hs: seq<Option<int>>, cmds: seq<Command>)
      requires Wf(nodes) && Counted(nodes, counts) && |heights| == |nodes| && p < |nodes|
      requires forall k :: 0 <= k < |from| ==> from[k] < |nodes|
      requires Live(nodes, counts, root, p) && Diff.InRange(Diff.Update(o, i), |from|, |KidsOf(nodes, p)|)
      ensures hs == ApplyCopies(heights, RecordEffects(nodes, counts, root, changed, p, from, Diff.Update(o, i)).copies)
      ensures cmds == RecordEffects(nodes, counts, root, changed, p, from, Diff.Update(o, i)).commands
      decreases |nodes| - p, 0
    {
      var f := from[o];
      var t := KidsOf(nodes, p)[i];
      KidInRange(nodes, p, i);
      hs := heights[t := heights[f]];
      var inner;
      hs, inner := Transition(nodes, counts, root, changed, t, KidsOf(nodes, f), hs);
      ghost var ie := TransitionEffects(nodes, counts, root, changed, t, KidsOf(nodes, f));
      ghost var e := RecordEffects(nodes, counts, root, changed, p, from, Diff.Update(o, i));
      assert e.copies == [(t, f)] + ie.copies;
      assert ApplyCopies(heights, [(t, f)]) == heights[t := heights[f]];
      ApplyCopiesJoin(heights, [(t, f)], ie.copies);
      cmds := inner;
      if changed(t, f) {
        var row := Row(nodes, counts, t);
        if row.Some? {
          cmds := cmds + [ReloadRow(row.value)];
        }
      }
    }

    method SetHeight(n: nat, h: int)
      requires Valid() && n < |nodes|
      modifies this`heights
      ensures Valid() && heights == old(heights)[n := Some(h)]
    {
      heights := heights[n := Some(h)];
    }

    /** `rootNode = n`, with its observer: the table reloads everything. */
    method SetRoot(n: Option<nat>)
      requires Valid() && (n.Some? ==> n.value < |nodes|)
      modifies this`root, this`table
      ensures Valid() && root == n && table == old(table) + [ReloadData]
    {
      root := n;
      table := table + [ReloadData];
    }

    /**
     * `n.node(at: index)`: the `index`-th row below `n`, counting only rows whose
     * ancestors up to `n` are expanded; nil for a negative index and past the end.
     */
    method NodeAt(n: nat, index: int) returns (r: Option<nat>)
      requires Valid() && n < |nodes|
      ensures r == if 0 <= index < |Visible(nodes, n)| then Some(Visible(nodes, n)[index]) else None
    {
      r := Lookup(nodes, counts, n, index);
    }

    /** `node(at:)` on the arena's values. */
    static method Lookup(nodes: seq<Node>, counts: seq<int>, n: nat, index: int) returns (r: Option<nat>)
      requires Wf(nodes) && Counted(nodes, counts) && n < |nodes|
      ensures r == if 0 <= index < |Visible(nodes, n)| then Some(Visible(nodes, n)[index]) else None
      decreases |nodes| - n
    {
      CountIsVisible(nodes, counts, n);
      if counts[n] < index {
        return None;
      }
      var ks := KidsOf(nodes, n);
      var i := index;
      for j := 0 to |ks|
        invariant Tracks(nodes, n, index, j, i)
      {
        LookupStep(nodes, counts, n, index, j, i);
        var c := ks[j];
        if i == 0 {
          return Some(c);
        }
        i := i - 1;
        if nodes[c].expanded {
          var found := Lookup(nodes, counts, c, i);
          if found.Some? {
            return found;
          }
          i := i - counts[c];
        }
      }
      assert VisibleFrom(nodes, n, |ks|) == [];
      return None;
    }

    /** `descendantIndexesOfItem(at:)` on `items`, then `indexPaths(rowsShift: shift)`. */
    static method RowsOf(items: seq<Item>, index: int, shift: int) returns (rows: set<int>)
      requires NonNegative(items)
      ensures rows == Shift(ChildRowsAsWritten(items, index), shift)
    {
      var indexes := DescendantIndexesAsWritten(items, index);
      var paths := IndexPaths(indexes, shift);
      rows := set r | r in paths;
    }
  }

  /**
   * Between two children in `node(at:)`: `i` is what is left of `index` once
   * the rows of children `0..j-1` are skipped, so it falls among the rows from
   * child `j` on exactly when `index` falls among the rows of `n`, and names the
   * same row there.
   */
  ghost predicate Tracks(nodes: seq<Node>, n: nat, index: int, j: nat, i: int)
    requires Wf(nodes) && n < |nodes| && j <= |KidsOf(nodes, n)|
  {
    if 0 <= index < |Visible(nodes, n)| then
      0 <= i < |VisibleFrom(nodes, n, j)| && VisibleFrom(nodes, n, j)[i] == Visible(nodes, n)[index]
    else
      i < 0 || i >= |VisibleFrom(nodes, n, j)|
  }

  /**
   * One child in `node(at:)`: position 0 is the child itself, the next
   * `descendantCount` positions of an expanded child are its own rows, and past
   * them the search goes on with the next child.
   */
  lemma {:induction false} LookupStep(nodes: seq<Node>, counts: seq<int>, n: nat, index: int, j: nat, i: int)
    requires Wf(nodes) && Counted(nodes, counts) && n < |nodes| && j < |KidsOf(nodes, n)|
    requires Tracks(nodes, n, index, j, i)
    ensures n < KidsOf(nodes, n)[j] < |nodes|
    ensures nodes[KidsOf(nodes, n)[j]].expanded ==> counts[KidsOf(nodes, n)[j]] == |Visible(nodes, KidsOf(nodes, n)[j])|
    ensures i == 0 ==> 0 <= index < |Visible(nodes, n)| && Visible(nodes, n)[index] == KidsOf(nodes, n)[j]
    ensures nodes[KidsOf(nodes, n)[j]].expanded && 0 <= i - 1 < counts[KidsOf(nodes, n)[j]] ==>
      0 <= index < |Visible(nodes, n)| && Visible(nodes, n)[index] == Visible(nodes, KidsOf(nodes, n)[j])[i - 1]
    ensures i != 0 && !(nodes[KidsOf(nodes, n)[j]].expanded && 0 <= i - 1 < counts[KidsOf(nodes, n)[j]]) ==>
      Tracks(nodes, n, index, j + 1, i - 1 - if nodes[KidsOf(nodes, n)[j]].expanded then counts[KidsOf(nodes, n)[j]] else 0)
  {
    KidInRange(nodes, n, j);
    BlockSplit(nodes, counts, n, j);
    var c := KidsOf(nodes, n)[j];
    if nodes[c].expanded {
      CountIsVisible(nodes, counts, c);
    }
    var block := Block(nodes, c);
    var rest := VisibleFrom(nodes, n, j + 1);
    assert |block| == 1 + if nodes[c].expanded then counts[c] else 0;
    if 0 <= i < |VisibleFrom(nodes, n, j)| {
      Split(VisibleFrom(nodes, n, j), block, rest, i);
    }
  }

  /** Where position `i` of `block + rest` falls. */
  lemma Split(all: seq<nat>, block: seq<nat>, rest: seq<nat>, i: int)
    requires all == block + rest && 0 <= i < |all|
    ensures i < |block| ==> all[i] == block[i]
    ensures i >= |block| ==> all[i] == rest[i - |block|]
  {
  }

  /**
   * Assigning the children of a node just appended, loose and without children,
   * to nodes after it changes nothing before it and keeps the children's identities.
   */
  lemma {:induction false} BuiltBelow(nodes: seq<Node>, n: nat, ks: seq<nat>, r: seq<Node>)
    requires Wf(nodes) && n < |nodes| && nodes[n].kids.None? && nodes[n].parent.None?
    requires Assignable(nodes, n, Some(ks)) && r == Relink(nodes, n, Some(ks))
    ensures Wf(r) && r[n] == nodes[n].(kids := Some(ks)) && KidsOf(r, n) == ks
    ensures forall i :: 0 <= i < n ==> r[i] == nodes[i]
    ensures Ids(r, ks) == Ids(nodes, ks)
  {
    RelinkWf(nodes, n, Some(ks));
    RelinkKeeps(nodes, n, Some(ks));
    RelinkAt(nodes, n, Some(ks), n);
    forall i | 0 <= i < n ensures r[i] == nodes[i] {
      RelinkAt(nodes, n, Some(ks), i);
    }
  }

  /** Flipping `x` and passing its count up moves neither its top, nor its row, nor its own count. */
  lemma {:induction false} ToggleFrame(nodes: seq<Node>, counts: seq<int>, ns: seq<Node>, cs: seq<int>, root: Option<nat>, x: nat, v: bool)
    requires Wf(nodes) && |counts| == |nodes| && x < |nodes| && ns == Flip(nodes, x, v) && Wf(ns) && |cs| == |ns|
    requires forall n :: 0 <= n < |ns| && !Above(ns, n, x) ==> cs[n] == counts[n]
    requires cs[x] == counts[x]
    requires root == Some(Top(nodes, x)) && Row(nodes, counts, x).Some? ==> counts[x] >= 1
    ensures Wf(ns) && (root == Some(Top(ns, x)) && Row(ns, cs, x).Some? ==> cs[x] >= 1)
  {
    SameShapeWf(nodes, ns);
    SameTop(nodes, ns, x);
    RowFrame(nodes, counts, ns, counts, x, x);
    RowFrame(ns, counts, ns, cs, x, x);
  }
}
