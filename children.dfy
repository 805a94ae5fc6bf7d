/**
 * The structural half of assigning `TreeNode.children`: the new array is stored,
 * the old children lose their `parent`, and every new child gets `parent` and
 * `index` (TreeController.swift, the `children` observer). The cached counts and
 * the table updates that follow are in `TreeNodes` and `Transition`.
 */
module Children {
  import opened Wrappers
  import opened RowMath
  import opened TreeModel
  import Diff

  /** The old children `olds` detached, one after the other (`child.parent = nil`). */
  function Detach(nodes: seq<Node>, olds: seq<nat>): (r: seq<Node>)
    requires forall k :: 0 <= k < |olds| ==> olds[k] < |nodes|
    ensures |r| == |nodes|
    decreases |olds|
  {
    if olds == [] then nodes
    else
      var r := Detach(nodes, olds[..|olds| - 1]);
      var c := olds[|olds| - 1];
      r[c := r[c].(parent := None)]
  }

  /** The new children `ks[..j]` linked to `p`, one after the other, at their positions. */
  function Link(nodes: seq<Node>, p: nat, ks: seq<nat>, j: nat): (r: seq<Node>)
    requires j <= |ks| && forall k :: 0 <= k < |ks| ==> ks[k] < |nodes|
    ensures |r| == |nodes|
    decreases j
  {
    if j == 0 then nodes
    else
      var r := Link(nodes, p, ks, j - 1);
      var c := ks[j - 1];
      r[c := r[c].(parent := Some(p), index := j - 1)]
  }

  /** What may be assigned as the children of `p`: nodes after `p` that are loose or already its children. */
  ghost predicate Assignable(nodes: seq<Node>, p: nat, kids: Option<seq<nat>>)
    requires Wf(nodes) && p < |nodes|
  {
    var ks := kids.GetOr([]);
    (forall k :: 0 <= k < |ks| ==>
       p < ks[k] < |nodes| && (nodes[ks[k]].parent.None? || nodes[ks[k]].parent == Some(p))) &&
    Diff.Distinct(Ids(nodes, ks))
  }

  /** The arena once `p.children = kids` and its observer's two loops have run. */
  function Relink(nodes: seq<Node>, p: nat, kids: Option<seq<nat>>): (r: seq<Node>)
    requires Wf(nodes) && p < |nodes| && Assignable(nodes, p, kids)
    ensures |r| == |nodes|
  {
    var stored := nodes[p := nodes[p].(kids := kids)];
    var ks := kids.GetOr([]);
    Link(Detach(stored, KidsOf(nodes, p)), p, ks, |ks|)
  }

  lemma {:induction false} DetachAt(nodes: seq<Node>, olds: seq<nat>, i: nat)
    requires forall k :: 0 <= k < |olds| ==> olds[k] < |nodes|
    requires i < |nodes|
    ensures Detach(nodes, olds)[i] == if i in olds then nodes[i].(parent := None) else nodes[i]
    decreases |olds|
  {
    if olds != [] {
      DetachAt(nodes, olds[..|olds| - 1], i);
      assert olds == olds[..|olds| - 1] + [olds[|olds| - 1]];
    }
  }

  lemma {:induction false} LinkAt(nodes: seq<Node>, p: nat, ks: seq<nat>, j: nat, i: nat)
    requires j <= |ks| && forall k :: 0 <= k < |ks| ==> ks[k] < |nodes|
    requires Diff.Distinct(ks) && i < |nodes|
    ensures i !in ks[..j] ==> Link(nodes, p, ks, j)[i] == nodes[i]
    ensures forall k :: 0 <= k < j && ks[k] == i ==> Link(nodes, p, ks, j)[i] == nodes[i].(parent := Some(p), index := k)
    decreases j
  {
    if j > 0 {
      LinkAt(nodes, p, ks, j - 1, i);
      assert ks[..j] == ks[..j - 1] + [ks[j - 1]];
    }
  }

  /** Distinct identities mean distinct positions. */
  lemma {:induction false} DistinctKids(nodes: seq<Node>, ks: seq<nat>)
    requires forall k :: 0 <= k < |ks| ==> ks[k] < |nodes|
    requires Diff.Distinct(Ids(nodes, ks))
    ensures Diff.Distinct(ks)
  {
    forall a, b | 0 <= a < b < |ks| ensures ks[a] != ks[b] {
      assert Ids(nodes, ks)[a] != Ids(nodes, ks)[b];
    }
  }

  /**
   * Node by node, assigning the children of `p`: `p` keeps the new array, each
   * new child points to `p` at its position, each old child that is not kept is
   * detached, and every other node is untouched.
   */
  lemma {:induction false} RelinkAt(nodes: seq<Node>, p: nat, kids: Option<seq<nat>>, i: nat)
    requires Wf(nodes) && p < |nodes| && Assignable(nodes, p, kids) && i < |nodes|
    ensures var r := Relink(nodes, p, kids);
      && (i == p ==> r[i] == nodes[p].(kids := kids))
      && (forall k :: 0 <= k < |kids.GetOr([])| && kids.GetOr([])[k] == i ==>
            r[i] == nodes[i].(parent := Some(p), index := k))
      && (i != p && i !in kids.GetOr([]) && i in KidsOf(nodes, p) ==> r[i] == nodes[i].(parent := None))
      && (i != p && i !in kids.GetOr([]) && i !in KidsOf(nodes, p) ==> r[i] == nodes[i])
  {
    var stored := nodes[p := nodes[p].(kids := kids)];
    var ks := kids.GetOr([]);
    var olds := KidsOf(nodes, p);
    DistinctKids(nodes, ks);
    DetachAt(stored, olds, i);
    LinkAt(Detach(stored, olds), p, ks, |ks|, i);
    assert ks[..|ks|] == ks;
    assert p !in olds;
    assert p !in ks;
  }

  /** Assigning children keeps every identity and flag, and every other node's children. */
  lemma {:induction false} RelinkKeeps(nodes: seq<Node>, p: nat, kids: Option<seq<nat>>)
    requires Wf(nodes) && p < |nodes| && Assignable(nodes, p, kids)
    ensures var r := Relink(nodes, p, kids);
      forall i :: 0 <= i < |nodes| ==>
        r[i].id == nodes[i].id && r[i].expandable == nodes[i].expandable &&
        r[i].expanded == nodes[i].expanded && (i != p ==> r[i].kids == nodes[i].kids)
  {
    forall i | 0 <= i < |nodes| {
      RelinkAt(nodes, p, kids, i);
    }
  }

  /** Assigning a node the children it already has leaves the arena as it was. */
  lemma {:induction false} SameRelink(nodes: seq<Node>, p: nat)
    requires Wf(nodes) && p < |nodes|
    ensures Assignable(nodes, p, nodes[p].kids)
    ensures Relink(nodes, p, nodes[p].kids) == nodes
  {
    var ks := KidsOf(nodes, p);
    forall k | 0 <= k < |ks| ensures p < ks[k] < |nodes| && nodes[ks[k]].parent == Some(p) {
      KidInRange(nodes, p, k);
    }
    var r := Relink(nodes, p, nodes[p].kids);
    forall i | 0 <= i < |nodes| ensures r[i] == nodes[i] {
      RelinkAt(nodes, p, nodes[p].kids, i);
      if i in ks {
        var k :| 0 <= k < |ks| && ks[k] == i;
        assert nodes[i].index == k;
      }
    }
  }

  /** After the assignment `p`'s children are the new array and every other node keeps its own. */
  lemma {:induction false} RelinkKids(nodes: seq<Node>, p: nat, kids: Option<seq<nat>>)
    requires Wf(nodes) && p < |nodes| && Assignable(nodes, p, kids)
    ensures KidsOf(Relink(nodes, p, kids), p) == kids.GetOr([])
    ensures forall q :: 0 <= q < |nodes| && q != p ==> KidsOf(Relink(nodes, p, kids), q) == KidsOf(nodes, q)
  {
    RelinkKeeps(nodes, p, kids);
    RelinkAt(nodes, p, kids, p);
  }

  lemma {:induction false} RelinkChildLinks(nodes: seq<Node>, p: nat, kids: Option<seq<nat>>)
    requires Wf(nodes) && p < |nodes| && Assignable(nodes, p, kids)
    ensures ChildLinks(Relink(nodes, p, kids))
  {
    var r := Relink(nodes, p, kids);
    var ks := kids.GetOr([]);
    RelinkKids(nodes, p, kids);
    forall q, j | 0 <= q < |r| && 0 <= j < |KidsOf(r, q)|
      ensures q < KidsOf(r, q)[j] < |r| && r[KidsOf(r, q)[j]].parent == Some(q) && r[KidsOf(r, q)[j]].index == j
    {
      if q == p {
        RelinkAt(nodes, p, kids, ks[j]);
      } else {
        var c := KidsOf(nodes, q)[j];
        RelinkAt(nodes, p, kids, c);
        assert c !in KidsOf(nodes, p);
        assert c !in ks;
      }
    }
  }

  lemma {:induction false} RelinkParentLinks(nodes: seq<Node>, p: nat, kids: Option<seq<nat>>)
    requires Wf(nodes) && p < |nodes| && Assignable(nodes, p, kids)
    ensures ParentLinks(Relink(nodes, p, kids))
  {
    var r := Relink(nodes, p, kids);
    var ks := kids.GetOr([]);
    RelinkKids(nodes, p, kids);
    forall n | 0 <= n < |r| && r[n].parent.Some?
      ensures r[n].parent.value < n && r[r[n].parent.value].kids.Some? &&
              r[n].index < |KidsOf(r, r[n].parent.value)| && KidsOf(r, r[n].parent.value)[r[n].index] == n
    {
      RelinkAt(nodes, p, kids, n);
      if n in ks {
        var k :| 0 <= k < |ks| && ks[k] == n;
        RelinkAt(nodes, p, kids, p);
      } else if n == p {
        var g := nodes[p].parent.value;
        RelinkAt(nodes, p, kids, g);
      } else {
        var g := nodes[n].parent.value;
        assert g != p;
        RelinkAt(nodes, p, kids, g);
      }
    }
  }

  /**
   * Assigning children that are loose or already the node's own, later in the
   * arena and with distinct identities, leaves a well-linked arena.
   */
  lemma {:induction false} RelinkWf(nodes: seq<Node>, p: nat, kids: Option<seq<nat>>)
    requires Wf(nodes) && p < |nodes| && Assignable(nodes, p, kids)
    ensures Wf(Relink(nodes, p, kids))
    ensures KidsOf(Relink(nodes, p, kids), p) == kids.GetOr([])
    ensures forall q :: 0 <= q < |nodes| && q != p ==> KidsOf(Relink(nodes, p, kids), q) == KidsOf(nodes, q)
  {
    var r := Relink(nodes, p, kids);
    RelinkKids(nodes, p, kids);
    RelinkKeeps(nodes, p, kids);
    RelinkChildLinks(nodes, p, kids);
    RelinkParentLinks(nodes, p, kids);
    forall q | 0 <= q < |r| && (forall j :: 0 <= j < |KidsOf(r, q)| ==> KidsOf(r, q)[j] < |r|)
      ensures Diff.Distinct(Ids(r, KidsOf(r, q)))
    {
      assert Ids(r, KidsOf(r, q)) == Ids(nodes, KidsOf(r, q));
    }
  }

  /**
   * After the assignment every cached count still matches its node's children,
   * except `p`'s, which should now be the rows of the new children.
   */
  lemma {:induction false} RelinkCounted(nodes: seq<Node>, counts: seq<int>, p: nat, kids: Option<seq<nat>>)
    requires Wf(nodes) && Counted(nodes, counts) && p < |nodes| && Assignable(nodes, p, kids)
    ensures Wf(Relink(nodes, p, kids))
    ensures CountedExcept(Relink(nodes, p, kids), counts, p, Total(Items(nodes, counts, kids.GetOr([]))))
  {
    var r := Relink(nodes, p, kids);
    RelinkWf(nodes, p, kids);
    RelinkKeeps(nodes, p, kids);
    forall n | 0 <= n < |r|
      ensures Total(Items(r, counts, KidsOf(r, n))) ==
              (if n == p then Total(Items(nodes, counts, kids.GetOr([]))) else counts[n])
    {
      assert Items(r, counts, KidsOf(r, n)) == Items(nodes, counts, KidsOf(r, n));
      if n != p {
        assert Local(nodes, counts, n);
      }
    }
  }
}
