/**
 * What the table is told, read back against the visible rows: the rows a
 * toggle or a transition names are exactly the rows of the nodes concerned,
 * collapsing deletes what expanding inserted, toggling twice restores every
 * count, and reassigning the same children with nothing changed tells the
 * table nothing.
 */
module Laws {
  import opened Wrappers
  import opened RowMath
  import opened TreeModel
  import opened Transition
  import Diff
  import Children

  // ---- Expanding and collapsing --------------------------------------------

  /**
   * The rows an expand inserts are the rows the node's subtree now occupies
   * below the controller's root: the positions right after the node's own row,
   * holding its visible descendants in order.
   */
  lemma {:induction false} ExpandShowsSubtree(nodes: seq<Node>, counts: seq<int>, root: Option<nat>, x: nat)
    requires Wf(nodes) && Counted(nodes, counts) && x < |nodes| && nodes[x].expanded
    requires ToggleCommands(nodes, counts, root, x) != []
    ensures var r := Row(nodes, counts, x).value;
      var t := Top(nodes, x);
      var v := Visible(nodes, x);
      && ToggleCommands(nodes, counts, root, x) == [InsertRows(RowRange(r + 1, r + |v|))]
      && root == Some(t)
      && 0 <= r + 1 && r + 1 + |v| <= |Visible(nodes, t)|
      && forall i :: 0 <= i < |v| ==> Visible(nodes, t)[r + 1 + i] == v[i]
  {
    var r := Row(nodes, counts, x).value;
    CountIsVisible(nodes, counts, x);
    VisibleEmbeds(nodes, counts, x, r);
  }

  /**
   * Collapsing deletes exactly the rows expanding the same node inserts: the
   * row and the count of the node are not moved by its own toggle.
   */
  lemma {:induction false} CollapseHidesSubtree(nodes: seq<Node>, counts: seq<int>, c: seq<int>, root: Option<nat>, x: nat)
    requires Wf(nodes) && Counted(nodes, counts) && x < |nodes| && nodes[x].expanded
    requires Wf(Flip(nodes, x, false)) && Counted(Flip(nodes, x, false), c)
    requires forall n :: 0 <= n < |nodes| && (n == x || !Above(Flip(nodes, x, false), n, x)) ==> c[n] == counts[n]
    requires ToggleCommands(nodes, counts, root, x) != []
    ensures ToggleCommands(nodes, counts, root, x) == [InsertRows(ToggleCommands(nodes, counts, root, x)[0].rows)]
    ensures ToggleCommands(Flip(nodes, x, false), c, root, x) == [DeleteRows(ToggleCommands(nodes, counts, root, x)[0].rows)]
  {
    var f := Flip(nodes, x, false);
    SameShapeWf(nodes, f);
    SameTop(nodes, f, x);
    RowFrame(nodes, counts, f, counts, x, x);
    RowFrame(f, counts, f, c, x, x);
  }

  /** Toggling a node and toggling it back restores the arena and every count. */
  lemma {:induction false} ToggleTwiceRestores(nodes: seq<Node>, counts: seq<int>, c: seq<int>, x: nat, v: bool)
    requires Wf(nodes) && Counted(nodes, counts) && x < |nodes|
    requires Wf(Flip(Flip(nodes, x, v), x, nodes[x].expanded))
    requires Counted(Flip(Flip(nodes, x, v), x, nodes[x].expanded), c)
    ensures Flip(Flip(nodes, x, v), x, nodes[x].expanded) == nodes && c == counts
  {
    var back := Flip(Flip(nodes, x, v), x, nodes[x].expanded);
    assert back == nodes by {
      assert forall i :: 0 <= i < |nodes| ==> back[i] == nodes[i];
    }
    CountsDetermined(nodes, c, counts);
  }

  // ---- Transitions ---------------------------------------------------------

  /**
   * The rows a transition names for child `i` of an expanded node `p` with a
   * row (an insert on the new array, a delete on the old one) are one range,
   * starting right after the rows of the children before it and exactly as
   * long as the child's block: the child itself, then, when it is expanded,
   * its visible descendants. The rows the source's loop computes are that range
   * exactly when the child is expanded or every child before it takes one row.
   */
  lemma {:induction false} ChildRowsShown(nodes: seq<Node>, counts: seq<int>, p: nat, i: nat)
    requires Wf(nodes) && Counted(nodes, counts) && p < |nodes| && i < |KidsOf(nodes, p)|
    requires nodes[p].expanded && Row(nodes, counts, p).Some?
    ensures KidsOf(nodes, p)[i] < |nodes| && NonNegative(Items(nodes, counts, KidsOf(nodes, p)))
    ensures var items := Items(nodes, counts, KidsOf(nodes, p));
      var start := Row(nodes, counts, p).value + 1 + Offset(items, i);
      Spans(Shift(ChildRows(items, i), Row(nodes, counts, p).value + 1), start, |Block(nodes, KidsOf(nodes, p)[i])|)
    ensures var items := Items(nodes, counts, KidsOf(nodes, p));
      var start := Row(nodes, counts, p).value + 1 + Offset(items, i);
      Spans(Shift(ChildRowsAsWritten(items, i), Row(nodes, counts, p).value + 1), start, |Block(nodes, KidsOf(nodes, p)[i])|)
      <==> (items[i].expanded || Offset(items, i) == i)
  {
    KidInRange(nodes, p, i);
    ItemsNonNegative(nodes, counts, p);
    var items, rp, n := Items(nodes, counts, KidsOf(nodes, p)), Row(nodes, counts, p).value, |Block(nodes, KidsOf(nodes, p)[i])|;
    ChildRowsShownAt(nodes, counts, p, i, items, rp, n);
    AsWrittenSpans(items, i, rp + 1, n);
  }

  lemma {:induction false} ChildRowsShownAt(nodes: seq<Node>, counts: seq<int>, p: nat, i: nat, items: seq<Item>, rp: int, n: int)
    requires Wf(nodes) && Counted(nodes, counts) && p < |nodes| && i < |KidsOf(nodes, p)|
    requires nodes[p].expanded && Row(nodes, counts, p) == Some(rp)
    requires KidsOf(nodes, p)[i] < |nodes| && items == Items(nodes, counts, KidsOf(nodes, p)) && NonNegative(items)
    requires n == |Block(nodes, KidsOf(nodes, p)[i])|
    ensures Spans(Shift(ChildRows(items, i), rp + 1), rp + 1 + Offset(items, i), n)
  {
    BlockSplit(nodes, counts, p, i);
    ShiftedChildRows(items, i, rp + 1, rp + 1 + Offset(items, i), rp + 1 + Offset(items, i) + n - 1);
  }

  /** `part` appears in `all` from position `start` on. */
  ghost predicate SitsAt(all: seq<nat>, start: int, part: seq<nat>) {
    0 <= start && start + |part| <= |all| && forall k :: 0 <= k < |part| ==> all[start + k] == part[k]
  }

  /**
   * Child `i`'s block sits at that range among the rows of `p`'s top node:
   * the range names the block's own nodes.
   */
  lemma {:induction false} BlockBelowTop(nodes: seq<Node>, counts: seq<int>, p: nat, i: nat)
    requires Wf(nodes) && Counted(nodes, counts) && p < |nodes| && i < |KidsOf(nodes, p)|
    requires nodes[p].expanded && Row(nodes, counts, p).Some?
    ensures KidsOf(nodes, p)[i] < |nodes|
    ensures SitsAt(Visible(nodes, Top(nodes, p)),
                   Row(nodes, counts, p).value + 1 + Offset(Items(nodes, counts, KidsOf(nodes, p)), i),
                   Block(nodes, KidsOf(nodes, p)[i]))
  {
    KidInRange(nodes, p, i);
    BlockBelowTopAt(nodes, counts, p, i, Row(nodes, counts, p).value,
                    Offset(Items(nodes, counts, KidsOf(nodes, p)), i), KidsOf(nodes, p)[i]);
  }

  lemma {:induction false} BlockBelowTopAt(nodes: seq<Node>, counts: seq<int>, p: nat, i: nat, rp: int, o: int, c: nat)
    requires Wf(nodes) && Counted(nodes, counts) && p < |nodes| && i < |KidsOf(nodes, p)|
    requires nodes[p].expanded && Row(nodes, counts, p) == Some(rp)
    requires c == KidsOf(nodes, p)[i] && c < |nodes| && o == Offset(Items(nodes, counts, KidsOf(nodes, p)), i)
    ensures SitsAt(Visible(nodes, Top(nodes, p)), rp + 1 + o, Block(nodes, c))
  {
    BlockAt(nodes, counts, p, i);
    VisibleEmbeds(nodes, counts, p, rp);
    Nested(Visible(nodes, Top(nodes, p)), Visible(nodes, p), Block(nodes, c), rp + 1, o);
  }

  /** A slice of a sequence that sits inside another sits there too. */
  lemma {:induction false} Nested(all: seq<nat>, below: seq<nat>, part: seq<nat>, base: int, o: int)
    requires 0 <= base && base + |below| <= |all|
    requires forall x :: 0 <= x < |below| ==> all[base + x] == below[x]
    requires 0 <= o && o + |part| <= |below| && below[o..o + |part|] == part
    ensures SitsAt(all, base + o, part)
  {
    forall k | 0 <= k < |part| ensures all[base + o + k] == part[k] {
      assert below[o..o + |part|][k] == below[o + k];
      assert all[base + (o + k)] == below[o + k];
    }
  }

  // ---- Reassigning the same children ---------------------------------------

  /** Effects that tell the table nothing and copy every height onto itself. */
  predicate Idle(e: Effects) {
    e.commands == [] && forall k :: 0 <= k < |e.copies| ==> e.copies[k].0 == e.copies[k].1
  }

  lemma {:induction false} IdleCopiesKeep(heights: seq<Option<int>>, copies: seq<(nat, nat)>)
    requires forall k :: 0 <= k < |copies| ==> copies[k].0 < |heights| && copies[k].1 < |heights|
    requires forall k :: 0 <= k < |copies| ==> copies[k].0 == copies[k].1
    ensures ApplyCopies(heights, copies) == heights
    decreases |copies|
  {
    if copies != [] {
      IdleCopiesKeep(heights, copies[..|copies| - 1]);
    }
  }

  /**
   * Assigning a node the children it already has, when `changed(from:)` says
   * no node changed, issues no command and leaves every height where it was.
   */
  lemma {:induction false} SameChildrenQuiet(nodes: seq<Node>, counts: seq<int>, root: Option<nat>, changed: (nat, nat) -> bool,
                          p: nat, heights: seq<Option<int>>)
    requires Wf(nodes) && Counted(nodes, counts) && p < |nodes| && |heights| == |nodes|
    requires forall a: nat :: !changed(a, a)
    ensures forall k :: 0 <= k < |KidsOf(nodes, p)| ==> KidsOf(nodes, p)[k] < |nodes|
    ensures TransitionEffects(nodes, counts, root, changed, p, KidsOf(nodes, p)).commands == []
    ensures ApplyCopies(heights, TransitionEffects(nodes, counts, root, changed, p, KidsOf(nodes, p)).copies) == heights
  {
    Quiet(nodes, counts, root, changed, p);
    IdleCopiesKeep(heights, TransitionEffects(nodes, counts, root, changed, p, KidsOf(nodes, p)).copies);
  }

  /**
   * The same through the whole assignment: relinking a node's own children and
   * recounting leave the arena and every count as they were, and the transition
   * then issues no command and copies no height that changes anything.
   */
  lemma {:induction false} AssignSameQuiet(nodes: seq<Node>, counts: seq<int>, root: Option<nat>, changed: (nat, nat) -> bool,
                                           p: nat, heights: seq<Option<int>>, ns: seq<Node>, cs: seq<int>)
    requires Wf(nodes) && Counted(nodes, counts) && p < |nodes| && |heights| == |nodes|
    requires forall a: nat :: !changed(a, a)
    requires Children.Assignable(nodes, p, nodes[p].kids) && ns == Children.Relink(nodes, p, nodes[p].kids) && Wf(ns) && Counted(ns, cs)
    ensures ns == nodes && cs == counts
    ensures forall k :: 0 <= k < |KidsOf(nodes, p)| ==> KidsOf(nodes, p)[k] < |nodes|
    ensures TransitionEffects(nodes, counts, root, changed, p, KidsOf(nodes, p)).commands == []
    ensures ApplyCopies(heights, TransitionEffects(nodes, counts, root, changed, p, KidsOf(nodes, p)).copies) == heights
  {
    Children.SameRelink(nodes, p);
    CountsDetermined(nodes, cs, counts);
    SameChildrenQuiet(nodes, counts, root, changed, p, heights);
  }

  lemma {:induction false} Quiet(nodes: seq<Node>, counts: seq<int>, root: Option<nat>, changed: (nat, nat) -> bool, p: nat)
    requires Wf(nodes) && Counted(nodes, counts) && p < |nodes|
    requires forall a: nat :: !changed(a, a)
    ensures forall k :: 0 <= k < |KidsOf(nodes, p)| ==> KidsOf(nodes, p)[k] < |nodes|
    ensures Idle(TransitionEffects(nodes, counts, root, changed, p, KidsOf(nodes, p)))
    decreases |nodes| - p, 1
  {
    var ks := KidsOf(nodes, p);
    forall k | 0 <= k < |ks| ensures ks[k] < |nodes| {
      KidInRange(nodes, p, k);
    }
    if Live(nodes, counts, root, p) {
      KidsDistinct(nodes, p);
      var ids := Ids(nodes, ks);
      Diff.IdenticalAllUpdates(ids);
      var records := Diff.DiffRecords(ids, ids);
      Diff.RecordsInRange(ids, ids);
      QuietRecords(nodes, counts, root, changed, p, records, |records|);
    }
  }

  lemma {:induction false} QuietRecords(nodes: seq<Node>, counts: seq<int>, root: Option<nat>, changed: (nat, nat) -> bool,
                                        p: nat, records: seq<Diff.Change>, k: nat)
    requires Wf(nodes) && Counted(nodes, counts) && p < |nodes| && Live(nodes, counts, root, p)
    requires forall a: nat :: !changed(a, a)
    requires forall j :: 0 <= j < |KidsOf(nodes, p)| ==> KidsOf(nodes, p)[j] < |nodes|
    requires k <= |records| && records == seq(|KidsOf(nodes, p)|, i requires 0 <= i => Diff.Update(i, i))
    requires forall j :: 0 <= j < |records| ==> Diff.InRange(records[j], |KidsOf(nodes, p)|, |KidsOf(nodes, p)|)
    ensures Idle(RecordsEffects(nodes, counts, root, changed, p, KidsOf(nodes, p), records, k))
    decreases |nodes| - p, 0, k
  {
    if k > 0 {
      QuietRecords(nodes, counts, root, changed, p, records, k - 1);
      QuietRecord(nodes, counts, root, changed, p, records, k - 1);
      IdleJoin(RecordsEffects(nodes, counts, root, changed, p, KidsOf(nodes, p), records, k - 1),
               RecordEffects(nodes, counts, root, changed, p, KidsOf(nodes, p), records[k - 1]));
    }
  }

  /** Record `k`, an update of child `k` onto itself, is idle. */
  lemma {:induction false} QuietRecord(nodes: seq<Node>, counts: seq<int>, root: Option<nat>, changed: (nat, nat) -> bool,
                                       p: nat, records: seq<Diff.Change>, k: nat)
    requires Wf(nodes) && Counted(nodes, counts) && p < |nodes| && Live(nodes, counts, root, p)
    requires forall a: nat :: !changed(a, a)
    requires forall j :: 0 <= j < |KidsOf(nodes, p)| ==> KidsOf(nodes, p)[j] < |nodes|
    requires k < |records| && records == seq(|KidsOf(nodes, p)|, i requires 0 <= i => Diff.Update(i, i))
    requires forall j :: 0 <= j < |records| ==> Diff.InRange(records[j], |KidsOf(nodes, p)|, |KidsOf(nodes, p)|)
    ensures Idle(RecordEffects(nodes, counts, root, changed, p, KidsOf(nodes, p), records[k]))
    decreases |nodes| - p, 0, 0
  {
    var ks := KidsOf(nodes, p);
    var t := ks[k];
    KidInRange(nodes, p, k);
    Quiet(nodes, counts, root, changed, t);
    assert records[k] == Diff.Update(k, k);
  }

  lemma {:induction false} IdleJoin(a: Effects, b: Effects)
    requires Idle(a) && Idle(b)
    ensures Idle(Join(a, b))
  {
    var c := Join(a, b).copies;
    forall j | 0 <= j < |c| ensures c[j].0 == c[j].1 {
      if j >= |a.copies| {
        assert c[j] == b.copies[j - |a.copies|];
      }
    }
  }
}
