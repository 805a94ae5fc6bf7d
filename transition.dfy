/**
 * What the table view is told when a node's children change or a node is
 * expanded or collapsed (TreeController.swift, `performTransition(from:)` and the
 * `isExpanded` observer). The table view is a log of commands; the calls of the
 * `lazyLoad()` hook are logged as commands too. These functions read the arena
 * as it is when the commands are issued, after all counts have been updated.
 */
module Transition {
  import opened Wrappers
  import opened RowMath
  import opened TreeModel
  import Diff

  /** One `insertRows`, `deleteRows`, `reloadRows` or `reloadData` call (one section), or one `lazyLoad()`. */
  datatype Command =
    | InsertRows(rows: set<int>)
    | DeleteRows(rows: set<int>)
    | ReloadRow(row: int)
    | ReloadData
    | LazyLoad(node: nat)

  /** The commands issued, and the `estimatedHeight` copies (to, from) made, in order. */
  datatype Effects = Effects(commands: seq<Command>, copies: seq<(nat, nat)>)

  function Join(a: Effects, b: Effects): Effects {
    Effects(a.commands + b.commands, a.copies + b.copies)
  }

  /** Every height copy is between nodes of the arena. */
  predicate Within(e: Effects, size: nat) {
    forall k :: 0 <= k < |e.copies| ==> e.copies[k].0 < size && e.copies[k].1 < size
  }

  /** The heights after the copies, made one after the other. */
  function ApplyCopies(heights: seq<Option<int>>, copies: seq<(nat, nat)>): (r: seq<Option<int>>)
    requires forall k :: 0 <= k < |copies| ==> copies[k].0 < |heights| && copies[k].1 < |heights|
    ensures |r| == |heights|
    decreases |copies|
  {
    if copies == [] then heights
    else
      var h := ApplyCopies(heights, copies[..|copies| - 1]);
      var c := copies[|copies| - 1];
      h[c.0 := h[c.1]]
  }

  lemma {:induction false} ApplyCopiesJoin(heights: seq<Option<int>>, a: seq<(nat, nat)>, b: seq<(nat, nat)>)
    requires forall k :: 0 <= k < |a| ==> a[k].0 < |heights| && a[k].1 < |heights|
    requires forall k :: 0 <= k < |b| ==> b[k].0 < |heights| && b[k].1 < |heights|
    ensures ApplyCopies(heights, a + b) == ApplyCopies(ApplyCopies(heights, a), b)
    decreases |b|
  {
    if b == [] {
      assert a + b == a;
    } else {
      ApplyCopiesJoin(heights, a, b[..|b| - 1]);
      assert (a + b)[..|a + b| - 1] == a + b[..|b| - 1];
    }
  }

  lemma {:induction false} KidsDistinct(nodes: seq<Node>, p: nat)
    requires Wf(nodes) && p < |nodes|
    ensures Diff.Distinct(Ids(nodes, KidsOf(nodes, p)))
  {
  }

  lemma {:induction false} ItemsOfCounted(nodes: seq<Node>, counts: seq<int>, ks: seq<nat>)
    requires Wf(nodes) && Counted(nodes, counts) && forall k :: 0 <= k < |ks| ==> ks[k] < |nodes|
    ensures NonNegative(Items(nodes, counts, ks))
  {
    CountsNonNegative(nodes, counts);
  }

  /**
   * `performTransition`'s guard: expanded, attached to the controller (the top of
   * its parent chain is the controller's `rootNode`), and with a row.
   */
  predicate Live(nodes: seq<Node>, counts: seq<int>, root: Option<nat>, p: nat)
    requires Wf(nodes) && |counts| == |nodes| && p < |nodes|
  {
    nodes[p].expanded && root == Some(Top(nodes, p)) && Row(nodes, counts, p).Some?
  }

  /**
   * `p.performTransition(from:)` once `p`'s children are set: nothing unless
   * `p` is live; otherwise the effects of each diff record, in the diff's order.
   */
  ghost function TransitionEffects(nodes: seq<Node>, counts: seq<int>, root: Option<nat>, changed: (nat, nat) -> bool,
                                   p: nat, from: seq<nat>): (e: Effects)
    requires Wf(nodes) && Counted(nodes, counts) && p < |nodes|
    requires forall k :: 0 <= k < |from| ==> from[k] < |nodes|
    ensures Within(e, |nodes|)
    decreases |nodes| - p, 1, 0
  {
    if Live(nodes, counts, root, p) then
      var to := KidsOf(nodes, p);
      KidsDistinct(nodes, p);
      var records := Diff.DiffRecords(Ids(nodes, from), Ids(nodes, to));
      Diff.RecordsInRange(Ids(nodes, from), Ids(nodes, to));
      RecordsEffects(nodes, counts, root, changed, p, from, records, |records|)
    else
      Effects([], [])
  }

  /** The effects of the first `k` diff records. */
  ghost function RecordsEffects(nodes: seq<Node>, counts: seq<int>, root: Option<nat>, changed: (nat, nat) -> bool,
                                p: nat, from: seq<nat>, records: seq<Diff.Change>, k: nat): (e: Effects)
    requires Wf(nodes) && Counted(nodes, counts) && p < |nodes| && Live(nodes, counts, root, p)
    requires forall k :: 0 <= k < |from| ==> from[k] < |nodes|
    requires k <= |records| && forall j :: 0 <= j < |records| ==> Diff.InRange(records[j], |from|, |KidsOf(nodes, p)|)
    ensures Within(e, |nodes|)
    decreases |nodes| - p, 0, k
  {
    if k == 0 then Effects([], [])
    else Join(RecordsEffects(nodes, counts, root, changed, p, from, records, k - 1),
              RecordEffects(nodes, counts, root, changed, p, from, records[k - 1]))
  }

  /**
   * The effects of one diff record. Rows are `descendantIndexesOfItem` as written
   * (`{index}` for a collapsed child) shifted past `p`'s own row: a delete's on
   * the old array, an insert's on the new one, a move both, delete first. An update copies the height, recurses
   * into the new node against the old node's children, and reloads the new
   * node's row when `changed` says so.
   */
  ghost function RecordEffects(nodes: seq<Node>, counts: seq<int>, root: Option<nat>, changed: (nat, nat) -> bool,
                               p: nat, from: seq<nat>, c: Diff.Change): (e: Effects)
    requires Wf(nodes) && Counted(nodes, counts) && p < |nodes| && Live(nodes, counts, root, p)
    requires forall k :: 0 <= k < |from| ==> from[k] < |nodes|
    requires Diff.InRange(c, |from|, |KidsOf(nodes, p)|)
    ensures Within(e, |nodes|)
    decreases |nodes| - p, 0, 0
  {
    var shift := Row(nodes, counts, p).value + 1;
    var to := KidsOf(nodes, p);
    ItemsOfCounted(nodes, counts, from);
    ItemsOfCounted(nodes, counts, to);
    var olds := Items(nodes, counts, from);
    var news := Items(nodes, counts, to);
    match c
    case Delete(o) => Effects([DeleteRows(Shift(ChildRowsAsWritten(olds, o), shift))], [])
    case Insert(i) => Effects([InsertRows(Shift(ChildRowsAsWritten(news, i), shift))], [])
    case Move(o, i) =>
      Effects([DeleteRows(Shift(ChildRowsAsWritten(olds, o), shift)), InsertRows(Shift(ChildRowsAsWritten(news, i), shift))], [])
    case Update(o, i) =>
      var f := from[o];
      var t := to[i];
      KidInRange(nodes, p, i);
      var inner := TransitionEffects(nodes, counts, root, changed, t, KidsOf(nodes, f));
      var row := Row(nodes, counts, t);
      var reload := if changed(t, f) && row.Some? then [ReloadRow(row.value)] else [];
      Join(Effects([], [(t, f)]), Join(inner, Effects(reload, [])))
  }

  /**
   * The rows the `isExpanded` observer names for `x` once its flag is set:
   * `row + 1 ... row + descendantCount`, inserted on expand and deleted on
   * collapse, when `x` is under the controller's root and has a row.
   */
  function ToggleCommands(nodes: seq<Node>, counts: seq<int>, root: Option<nat>, x: nat): seq<Command>
    requires Wf(nodes) && |counts| == |nodes| && x < |nodes|
  {
    var row := Row(nodes, counts, x);
    if root == Some(Top(nodes, x)) && row.Some? then
      var rows := RowRange(row.value + 1, row.value + counts[x]);
      [if nodes[x].expanded then InsertRows(rows) else DeleteRows(rows)]
    else []
  }
}
