/**
 * `TreeController` as the table view's data source and delegate: one section
 * whose rows are the visible rows below `rootNode`, looked up with
 * `node(at:)`, toggled on selection, with a per-node height cache
 * (TreeController.swift, the `TreeController` class).
 */
module Host {
  import opened Wrappers
  import opened RowMath
  import opened TreeModel
  import opened Transition
  import opened TreeNodes

  /** A row height: a number of points, or `UITableViewAutomaticDimension`. */
  datatype Dimension = Points(h: int) | Automatic

  /** The node shown at `row` below the root, if there is a root and such a row. */
  ghost function NodeOfRow(nodes: seq<Node>, root: Option<nat>, row: int): (r: Option<nat>)
    requires Wf(nodes) && (root.Some? ==> root.value < |nodes|)
    ensures r.Some? ==> r.value < |nodes|
  {
    if root.Some? && 0 <= row < |Visible(nodes, root.value)| then
      VisibleInRange(nodes, root.value, row);
      Some(Visible(nodes, root.value)[row])
    else None
  }

  /**
   * The round trip node -> row -> node: a node below the root that has a row
   * is what `rootNode.node(at:)` returns for that row.
   */
  lemma {:induction false} RowThenNode(nodes: seq<Node>, counts: seq<int>, root: Option<nat>, n: nat)
    requires Wf(nodes) && Counted(nodes, counts) && n < |nodes|
    requires nodes[n].parent.Some? && root == Some(Top(nodes, n)) && Row(nodes, counts, n).Some?
    ensures NodeOfRow(nodes, root, Row(nodes, counts, n).value) == Some(n)
  {
    RowRoundTrip(nodes, counts, n, Row(nodes, counts, n).value);
  }

  lemma {:induction false} VisibleInRange(nodes: seq<Node>, n: nat, i: nat)
    requires Wf(nodes) && n < |nodes| && i < |Visible(nodes, n)|
    ensures n < Visible(nodes, n)[i] < |nodes|
  {
    VisibleBelow(nodes, n, 0);
  }

  lemma {:induction false} VisibleBelow(nodes: seq<Node>, n: nat, j: nat)
    requires Wf(nodes) && n < |nodes| && j <= |KidsOf(nodes, n)|
    ensures forall i :: 0 <= i < |VisibleFrom(nodes, n, j)| ==> n < VisibleFrom(nodes, n, j)[i] < |nodes|
    decreases |nodes| - n, |KidsOf(nodes, n)| - j
  {
    if j < |KidsOf(nodes, n)| {
      var c := KidsOf(nodes, n)[j];
      KidInRange(nodes, n, j);
      VisibleBelow(nodes, c, 0);
      VisibleBelow(nodes, n, j + 1);
      assert Visible(nodes, c) == VisibleFrom(nodes, c, 0);
      var sub := if nodes[c].expanded then Visible(nodes, c) else [];
      var rest := VisibleFrom(nodes, n, j + 1);
      assert VisibleFrom(nodes, n, j) == [c] + sub + rest;
      forall i | 0 <= i < |VisibleFrom(nodes, n, j)| ensures n < VisibleFrom(nodes, n, j)[i] < |nodes| {
        if 0 < i <= |sub| {
          assert VisibleFrom(nodes, n, j)[i] == sub[i - 1];
        } else if i > |sub| {
          assert VisibleFrom(nodes, n, j)[i] == rest[i - 1 - |sub|];
        }
      }
    }
  }

  /**
   * `estimatedHeightForRowAt`: the node's cached height, else the table's own
   * estimate when it is positive, else automatic; automatic for a row with no node.
   */
  ghost function Estimate(nodes: seq<Node>, heights: seq<Option<int>>, root: Option<nat>, row: int, tableEstimate: int): Dimension
    requires Wf(nodes) && |heights| == |nodes| && (root.Some? ==> root.value < |nodes|)
  {
    match NodeOfRow(nodes, root, row)
    case None => Automatic
    case Some(x) =>
      if heights[x].Some? then Points(heights[x].value)
      else if tableEstimate > 0 then Points(tableEstimate)
      else Automatic
  }

  /**
   * Once a row has been displayed at height `h`, its estimate is `h`, whatever
   * the table's own estimate, until the height is overwritten.
   */
  lemma {:induction false} DisplayedHeightEstimated(nodes: seq<Node>, heights: seq<Option<int>>, root: Option<nat>, row: int,
                                 h: int, tableEstimate: int)
    requires Wf(nodes) && |heights| == |nodes| && (root.Some? ==> root.value < |nodes|)
    requires NodeOfRow(nodes, root, row).Some?
    ensures Estimate(nodes, heights[NodeOfRow(nodes, root, row).value := Some(h)], root, row, tableEstimate) == Points(h)
  {
  }

  class TreeController {
    /** The nodes, `rootNode` and the table view's log. */
    const forest: Forest

    ghost predicate Valid()
      reads this, forest
    {
      forest.Valid()
    }

    constructor (f: Forest)
      requires f.Valid()
      ensures forest == f && Valid()
    {
      forest := f;
    }

    /** `numberOfRowsInSection`: `rootNode.descendantCount`, or 0 without a root. */
    function NumberOfRows(): (n: int)
      reads this, forest
      requires Valid()
      ensures n == if forest.root.None? then 0 else |Visible(forest.nodes, forest.root.value)|
    {
      if forest.root.None? then 0
      else
        CountIsVisible(forest.nodes, forest.counts, forest.root.value);
        forest.counts[forest.root.value]
    }

    /**
     * `cellForRowAt`: the node at the row, which must exist, and the cell's
     * indentation level (0 when the node has none). Below a root that is
     * expanded and has no parent, the node's `indexPath` is that row again and
     * its indentation is one less than its number of ancestors.
     */
    method CellForRowAt(row: int) returns (node: nat, indentation: int)
      requires Valid() && forest.root.Some? && 0 <= row < NumberOfRows()
      ensures NodeOfRow(forest.nodes, forest.root, row) == Some(node)
      ensures var top := forest.root.value;
        forest.nodes[top].parent.None? && forest.nodes[top].expanded ==>
          Row(forest.nodes, forest.counts, node) == Some(row) &&
          Top(forest.nodes, node) == top &&
          indentation == Depth(forest.nodes, node) - 1
    {
      var top := forest.root.value;
      var found := forest.NodeAt(top, row);
      node := found.value;
      VisibleInRange(forest.nodes, top, row);
      indentation := IndentationLevel(forest.nodes, node).GetOr(0);
      if forest.nodes[top].parent.None? && forest.nodes[top].expanded {
        RowsOfVisible(forest.nodes, forest.counts, top, -1);
      }
    }

    /**
     * `didSelectRowAt`: an expandable node at the row is toggled, with the
     * toggle's commands; a row without a node, or a node that cannot expand,
     * changes nothing.
     */
    method DidSelectRowAt(row: int)
      requires Valid()
      requires var x := NodeOfRow(forest.nodes, forest.root, row);
        x.Some? && forest.nodes[x.value].expandable && forest.nodes[x.value].kids.Some? &&
        forest.root == Some(Top(forest.nodes, x.value)) && Row(forest.nodes, forest.counts, x.value).Some?
        ==> forest.counts[x.value] >= 1
      modifies forest`nodes, forest`counts, forest`table
      ensures Valid()
      ensures var x := NodeOfRow(old(forest.nodes), forest.root, row);
        if x.Some? && old(forest.nodes[x.value].expandable) then
          var v := !old(forest.nodes[x.value].expanded);
          && forest.nodes == Flip(old(forest.nodes), x.value, v)
          && (forall n :: 0 <= n < |forest.nodes| && (n == x.value || !Above(forest.nodes, n, x.value)) ==>
                forest.counts[n] == old(forest.counts)[n])
          && forest.table == old(forest.table) +
               if forest.nodes[x.value].kids.None? then (if v then [LazyLoad(x.value)] else [])
               else ToggleCommands(forest.nodes, forest.counts, forest.root, x.value)
        else
          forest.nodes == old(forest.nodes) && forest.counts == old(forest.counts) && forest.table == old(forest.table)
    {
      if forest.root.None? {
        return;
      }
      var found := forest.NodeAt(forest.root.value, row);
      if found.None? {
        return;
      }
      var x := found.value;
      VisibleInRange(forest.nodes, forest.root.value, row);
      if forest.nodes[x].expandable {
        forest.SetExpanded(x, !forest.nodes[x].expanded);
      }
    }

    /** `estimatedHeightForRowAt`, with the table view's `estimatedRowHeight` passed in. */
    method EstimatedHeightForRowAt(row: int, tableEstimate: int) returns (d: Dimension)
      requires Valid()
      ensures d == Estimate(forest.nodes, forest.heights, forest.root, row, tableEstimate)
      ensures d.Points? ==> NodeOfRow(forest.nodes, forest.root, row).Some? || tableEstimate > 0
    {
      if forest.root.None? {
        return Automatic;
      }
      var found := forest.NodeAt(forest.root.value, row);
      if found.None? {
        return Automatic;
      }
      var x := found.value;
      VisibleInRange(forest.nodes, forest.root.value, row);
      if forest.heights[x].Some? {
        d := Points(forest.heights[x].value);
      } else if tableEstimate > 0 {
        d := Points(tableEstimate);
      } else {
        d := Automatic;
      }
    }

    /** `willDisplay`: the displayed cell's height is cached on the row's node. */
    method WillDisplay(row: int, h: int)
      requires Valid()
      modifies forest`heights
      ensures Valid()
      ensures forest.heights ==
        match NodeOfRow(forest.nodes, forest.root, row)
        case Some(x) => old(forest.heights)[x := Some(h)]
        case None => old(forest.heights)
    {
      if forest.root.None? {
        return;
      }
      var found := forest.NodeAt(forest.root.value, row);
      if found.None? {
        return;
      }
      VisibleInRange(forest.nodes, forest.root.value, row);
      forest.SetHeight(found.value, h);
    }
  }
}
