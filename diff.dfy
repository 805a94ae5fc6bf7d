/**
 * `Array.changes(from:handler:)` of TreeController.swift: the identity-keyed,
 * two-pass diff of a node's old and new children. Elements are compared with
 * `==` only (the nodes' `isEqual`, i.e. their identity); the handler calls are
 * collected, in order, into a sequence of `Change` records.
 */
module Diff {

  /** One call of the handler: (oldIndex, newIndex, changeType). */
  datatype Change =
    | Delete(oldIndex: nat)
    | Insert(newIndex: nat)
    | Move(oldIndex: nat, newIndex: nat)
    | Update(oldIndex: nat, newIndex: nat)

  predicate Distinct<T(==,!new)>(s: seq<T>) {
    forall i, j :: 0 <= i < j < |s| ==> s[i] != s[j]
  }

  /** `Array.index(of:)`: the first position that holds `x`. */
  function FirstIndex<T(==,!new)>(s: seq<T>, x: T): (r: nat)
    requires x in s
    ensures r < |s| && s[r] == x
    ensures forall j :: 0 <= j < r ==> s[j] != x
  {
    if s[0] == x then 0 else 1 + FirstIndex(s[1..], x)
  }

  /** The working copy after the first pass: `from` without the elements absent from `to`. */
  function Kept<T(==,!new)>(from: seq<T>, to: seq<T>): (r: seq<T>)
    ensures forall x :: x in r <==> x in from && x in to
    ensures |r| <= |from|
  {
    if from == [] then []
    else (if from[0] in to then [from[0]] else []) + Kept(from[1..], to)
  }

  /** The deletions reported for the old positions `i..|from|-1`, highest position first. */
  function DeletesAbove<T(==,!new)>(from: seq<T>, to: seq<T>, i: nat): seq<Change>
    requires i <= |from|
    decreases |from| - i
  {
    if i == |from| then []
    else DeletesAbove(from, to, i + 1) + (if from[i] in to then [] else [Delete(i)])
  }

  /** Everything the first pass reports. */
  function Deletions<T(==,!new)>(from: seq<T>, to: seq<T>): seq<Change> {
    DeletesAbove(from, to, 0)
  }

  /**
   * The working copy `arr` when the second pass reaches new index `i`. A matched
   * element leaves it as it is (moves are not applied); an element not found is
   * inserted at position `i`.
   */
  function Working<T(==,!new)>(from: seq<T>, to: seq<T>, i: nat): (w: seq<T>)
    requires i <= |to| && Distinct(to)
    ensures forall x :: x in w <==> (x in from && x in to) || x in to[..i]
    ensures |w| >= i
    decreases i
  {
    if i == 0 then Kept(from, to)
    else
      var w := Working(from, to, i - 1);
      var x := to[i - 1];
      assert to[..i] == to[..i - 1] + [x];
      if x in w then
        CoveredLength(to[..i], w);
        w
      else
        w[..i - 1] + [x] + w[i - 1..]
  }

  /** The record reported for new index `i` by the second pass. */
  function Report<T(==,!new)>(from: seq<T>, to: seq<T>, i: nat): (c: Change)
    requires i < |to| && Distinct(to)
    ensures !c.Delete? && c.newIndex == i
    ensures c.Insert? <==> to[i] !in from
    ensures !c.Insert? ==> c.oldIndex < |from| && from[c.oldIndex] == to[i]
    ensures !c.Insert? ==> forall j :: 0 <= j < c.oldIndex ==> from[j] != to[i]
  {
    var w := Working(from, to, i);
    var x := to[i];
    assert x !in to[..i];
    if x in w then
      var o := FirstIndex(from, x);
      if FirstIndex(w, x) == i then Update(o, i) else Move(o, i)
    else
      Insert(i)
  }

  /** What the second pass reports for the new indices below `k`, by ascending new index. */
  function ReportsBelow<T(==,!new)>(from: seq<T>, to: seq<T>, k: nat): (r: seq<Change>)
    requires k <= |to| && Distinct(to)
    ensures |r| == k
    ensures forall i :: 0 <= i < k ==> r[i] == Report(from, to, i)
  {
    if k == 0 then [] else ReportsBelow(from, to, k - 1) + [Report(from, to, k - 1)]
  }

  /** Everything the second pass reports. */
  function Reports<T(==,!new)>(from: seq<T>, to: seq<T>): seq<Change>
    requires Distinct(to)
  {
    ReportsBelow(from, to, |to|)
  }

  /** The whole sequence of handler calls. */
  function DiffRecords<T(==,!new)>(from: seq<T>, to: seq<T>): seq<Change>
    requires Distinct(to)
  {
    Deletions(from, to) + Reports(from, to)
  }

  /**
   * `changes(from:handler:)` called on `to`. `to` must not hold two equal
   * elements: otherwise `arr.insert(obj, at: i)` can be asked for a position past
   * the end of the working copy, which traps.
   */
  method Changes<T(==,!new)>(from: seq<T>, to: seq<T>) returns (out: seq<Change>)
    requires Distinct(to)
    ensures out == DiffRecords(from, to)
  {
    var arr, deletions := DeletionPass(from, to);
    var reports := ReportPass(from, to, arr);
    out := deletions + reports;
  }

  /** The first loop of `changes`: the deletions it reports and the working copy it leaves. */
  method DeletionPass<T(==,!new)>(from: seq<T>, to: seq<T>) returns (arr: seq<T>, out: seq<Change>)
    ensures arr == Kept(from, to) && out == Deletions(from, to)
  {
    arr := from;
    out := [];
    var i := |from|;
    while i > 0
      invariant 0 <= i <= |from|
      invariant arr == from[..i] + Kept(from[i..], to)
      invariant out == DeletesAbove(from, to, i)
    {
      i := i - 1;
      KeptStep(from, to, i);
      if from[i] !in to {
        out := out + [Delete(i)];
        arr := arr[..i] + arr[i + 1..];
      }
    }
    assert from[0..] == from;
  }

  /** The second loop of `changes`, run on the working copy the first loop left. */
  method ReportPass<T(==,!new)>(from: seq<T>, to: seq<T>, kept: seq<T>) returns (out: seq<Change>)
    requires Distinct(to) && kept == Kept(from, to)
    ensures out == Reports(from, to)
  {
    var arr := kept;
    out := [];
    var k := 0;
    while k < |to|
      invariant 0 <= k <= |to|
      invariant arr == Working(from, to, k)
      invariant out == ReportsBelow(from, to, k)
    {
      var obj := to[k];
      var c: Change;
      if obj in arr {
        FoundStep(from, to, k);
        var j := FirstIndex(arr, obj);
        if j != k {
          c := Move(FirstIndex(from, obj), k);
        } else {
          c := Update(FirstIndex(from, obj), k);
        }
      } else {
        InsertStep(from, to, k);
        c := Insert(k);
        arr := arr[..k] + [obj] + arr[k..];
      }
      assert c == Report(from, to, k);
      assert ReportsBelow(from, to, k + 1) == out + [c];
      out := out + [c];
      k := k + 1;
    }
  }

  /** Removing the element at position `|p|` of `p + [x] + q` leaves `p + q`. */
  lemma DropAt<T>(p: seq<T>, x: T, q: seq<T>)
    ensures (p + [x] + q)[..|p|] + (p + [x] + q)[|p| + 1..] == p + q
  {
    assert (p + [x] + q)[..|p|] == p;
    assert (p + [x] + q)[|p| + 1..] == q;
  }

  /** One step of the first pass, stated on the working copy `from[..i + 1] + Kept(from[i + 1..], to)`. */
  lemma {:induction false} KeptStep<T(!new)>(from: seq<T>, to: seq<T>, i: nat)
    requires i < |from|
    ensures var arr := from[..i + 1] + Kept(from[i + 1..], to);
      && (from[i] in to ==> arr == from[..i] + Kept(from[i..], to))
      && (from[i] !in to ==> i < |arr| && arr[..i] + arr[i + 1..] == from[..i] + Kept(from[i..], to))
  {
    assert from[i..][1..] == from[i + 1..];
    assert from[..i + 1] == from[..i] + [from[i]];
    DropAt(from[..i], from[i], Kept(from[i + 1..], to));
  }

  /** The second pass finds `to[k]` in the working copy: a move or an update, copy unchanged. */
  lemma {:induction false} FoundStep<T(!new)>(from: seq<T>, to: seq<T>, k: nat)
    requires k < |to| && Distinct(to) && to[k] in Working(from, to, k)
    ensures to[k] in from
    ensures Working(from, to, k + 1) == Working(from, to, k)
    ensures Report(from, to, k)
         == if FirstIndex(Working(from, to, k), to[k]) != k then Move(FirstIndex(from, to[k]), k)
            else Update(FirstIndex(from, to[k]), k)
  {
    assert to[k] !in to[..k];
  }

  /** The second pass does not find `to[k]`: an insertion, spliced in at position `k`. */
  lemma {:induction false} InsertStep<T(!new)>(from: seq<T>, to: seq<T>, k: nat)
    requires k < |to| && Distinct(to) && to[k] !in Working(from, to, k)
    ensures k <= |Working(from, to, k)|
    ensures Working(from, to, k + 1)
         == Working(from, to, k)[..k] + [to[k]] + Working(from, to, k)[k..]
    ensures Report(from, to, k) == Insert(k)
  {
  }

  // ---- What the two passes report ----------------------------------------

  /** Deletions only, of old positions in `lo..hi-1`, in strictly descending position. */
  predicate Descending(s: seq<Change>, lo: int, hi: int) {
    && (forall k :: 0 <= k < |s| ==> s[k].Delete? && lo <= s[k].oldIndex < hi)
    && (forall a, b :: 0 <= a < b < |s| ==> s[a].oldIndex > s[b].oldIndex)
  }

  /** The first pass reports deletions of positions from `i` on, highest first, at most one each. */
  lemma {:induction false} DeletesAboveDescending<T(!new)>(from: seq<T>, to: seq<T>, i: nat)
    requires i <= |from|
    ensures Descending(DeletesAbove(from, to, i), i, |from|)
    ensures |DeletesAbove(from, to, i)| <= |from| - i
    decreases |from| - i
  {
    if i < |from| {
      DeletesAboveDescending(from, to, i + 1);
      var rest := DeletesAbove(from, to, i + 1);
      if from[i] !in to {
        var all := rest + [Delete(i)];
        assert DeletesAbove(from, to, i) == all;
        forall k | 0 <= k < |all| ensures all[k].Delete? && i <= all[k].oldIndex < |from| {
          if k < |rest| {
            assert all[k] == rest[k];
          }
        }
        forall a, b | 0 <= a < b < |all| ensures all[a].oldIndex > all[b].oldIndex {
          assert all[a] == rest[a];
          if b < |rest| {
            assert all[b] == rest[b];
          }
        }
      }
    }
  }

  /** The first pass reports a deletion exactly for each old position, from `i` on, whose element is not in `to`. */
  lemma {:induction false} DeletesAboveExactly<T(!new)>(from: seq<T>, to: seq<T>, i: nat)
    requires i <= |from|
    ensures forall o: nat :: Delete(o) in DeletesAbove(from, to, i) <==> i <= o < |from| && from[o] !in to
    decreases |from| - i
  {
    if i < |from| {
      DeletesAboveExactly(from, to, i + 1);
      DeletesAboveDescending(from, to, i + 1);
      var rest := DeletesAbove(from, to, i + 1);
      var tail := if from[i] in to then [] else [Delete(i)];
      assert DeletesAbove(from, to, i) == rest + tail;
      assert forall k :: 0 <= k < |rest| ==> rest[k] != Delete(i);
      forall o: nat ensures Delete(o) in rest + tail <==> i <= o < |from| && from[o] !in to {
        assert Delete(o) in rest + tail <==> Delete(o) in rest || Delete(o) in tail;
      }
    }
  }

  lemma {:induction false} DeletionsExactly<T(!new)>(from: seq<T>, to: seq<T>)
    ensures forall k :: 0 <= k < |Deletions(from, to)| ==> Deletions(from, to)[k].Delete?
    ensures forall o: nat :: Delete(o) in Deletions(from, to) <==> o < |from| && from[o] !in to
    ensures forall a, b :: 0 <= a < b < |Deletions(from, to)| ==>
              Deletions(from, to)[a].oldIndex > Deletions(from, to)[b].oldIndex
    ensures |Deletions(from, to)| <= |from|
  {
    DeletesAboveDescending(from, to, 0);
    DeletesAboveExactly(from, to, 0);
  }

  /**
   * The layout of the whole report: all deletions first, then one record per new
   * index in ascending order, and never more records than old and new elements.
   */
  lemma {:induction false} DiffLayout<T(!new)>(from: seq<T>, to: seq<T>)
    requires Distinct(to)
    ensures var d := |Deletions(from, to)|;
      && |DiffRecords(from, to)| == d + |to| <= |from| + |to|
      && (forall k :: 0 <= k < d ==> DiffRecords(from, to)[k].Delete?)
      && (forall k :: d <= k < d + |to| ==> !DiffRecords(from, to)[k].Delete?
                                             && DiffRecords(from, to)[k].newIndex == k - d)
  {
    DeletionsExactly(from, to);
  }

  /** A record indexes only positions of the old (`m` long) and new (`n` long) arrays. */
  predicate InRange(c: Change, m: nat, n: nat) {
    match c
    case Delete(o) => o < m
    case Insert(i) => i < n
    case Move(o, i) => o < m && i < n
    case Update(o, i) => o < m && i < n
  }

  /** Every index the handler receives is a valid position, so the callers' force unwraps and subscripts succeed. */
  lemma {:induction false} RecordsInRange<T(!new)>(from: seq<T>, to: seq<T>)
    requires Distinct(to)
    ensures forall k :: 0 <= k < |DiffRecords(from, to)| ==> InRange(DiffRecords(from, to)[k], |from|, |to|)
  {
    var recs := DiffRecords(from, to);
    var d := Deletions(from, to);
    DeletionsExactly(from, to);
    forall k | 0 <= k < |recs| ensures InRange(recs[k], |from|, |to|) {
      if k < |d| {
        assert recs[k] == d[k];
        assert Delete(d[k].oldIndex) in d;
      } else {
        assert recs[k] == Report(from, to, k - |d|);
      }
    }
  }

  /**
   * No old position is reported twice: deletions name elements absent from `to`,
   * moves and updates name the first occurrence of distinct new elements.
   */
  lemma {:induction false} OldIndicesDistinct<T(!new)>(from: seq<T>, to: seq<T>)
    requires Distinct(to)
    ensures forall a, b ::
              (0 <= a < b < |DiffRecords(from, to)| &&
               !DiffRecords(from, to)[a].Insert? && !DiffRecords(from, to)[b].Insert?) ==>
              DiffRecords(from, to)[a].oldIndex != DiffRecords(from, to)[b].oldIndex
  {
    var recs := DiffRecords(from, to);
    var d := Deletions(from, to);
    DeletionsExactly(from, to);
    forall a, b | 0 <= a < b < |recs| && !recs[a].Insert? && !recs[b].Insert?
      ensures recs[a].oldIndex != recs[b].oldIndex
    {
      if b < |d| {
      } else {
        var rb := Report(from, to, b - |d|);
        assert recs[b] == rb;
        if a < |d| {
          assert recs[a] == d[a];
          assert Delete(d[a].oldIndex) in d;
        } else {
          var ra := Report(from, to, a - |d|);
          assert recs[a] == ra;
          assert from[ra.oldIndex] == to[a - |d|] && from[rb.oldIndex] == to[b - |d|];
        }
      }
    }
  }

  /** The element a record puts at its new index: the new element for an insert, the old one for a move or an update. */
  function Placed<T>(from: seq<T>, to: seq<T>, c: Change): T
    requires !c.Delete? && InRange(c, |from|, |to|)
  {
    if c.Insert? then to[c.newIndex] else from[c.oldIndex]
  }

  /** Record `c` puts `to[i]` at new index `i`. */
  predicate PlacesAt<T(==)>(from: seq<T>, to: seq<T>, c: Change, i: nat) {
    !c.Delete? && InRange(c, |from|, |to|) && c.newIndex == i && Placed(from, to, c) == to[i]
  }

  /**
   * Replaying the records after the deletions, in order, rebuilds the new array:
   * the record at position `d + i` puts `to[i]` at new index `i`, a move or an
   * update taking it from the old array.
   */
  lemma {:induction false} ReplayRebuilds<T(!new)>(from: seq<T>, to: seq<T>)
    requires Distinct(to)
    ensures |DiffRecords(from, to)| == |Deletions(from, to)| + |to|
    ensures forall k :: |Deletions(from, to)| <= k < |DiffRecords(from, to)| ==>
              PlacesAt(from, to, DiffRecords(from, to)[k], k - |Deletions(from, to)|)
  {
    var d := |Deletions(from, to)|;
    assert |DiffRecords(from, to)| == d + |to|;
    forall k | d <= k < d + |to| ensures PlacesAt(from, to, DiffRecords(from, to)[k], k - d) {
      ReplayAt(from, to, d, k);
    }
  }

  /** Position `k` past the deletions holds the second pass's report for new index `k - d`, which places `to[k - d]`. */
  lemma {:induction false} ReplayAt<T(!new)>(from: seq<T>, to: seq<T>, d: nat, k: nat)
    requires Distinct(to) && d == |Deletions(from, to)| && d <= k < d + |to|
    ensures k < |DiffRecords(from, to)| && PlacesAt(from, to, DiffRecords(from, to)[k], k - d)
  {
    assert DiffRecords(from, to)[k] == Report(from, to, k - d);
  }

  /**
   * With no two equal old elements, every old position is accounted for: it is
   * deleted when its element is gone from `to`, and otherwise a move or an update
   * takes it (by OldIndicesDistinct, only one record names it).
   */
  lemma {:induction false} OldPositionsAccounted<T(!new)>(from: seq<T>, to: seq<T>)
    requires Distinct(from) && Distinct(to)
    ensures forall o: nat :: o < |from| && from[o] !in to ==> Delete(o) in DiffRecords(from, to)
    ensures forall o: nat :: o < |from| && from[o] in to ==>
              exists k :: 0 <= k < |DiffRecords(from, to)| && (DiffRecords(from, to)[k].Move? || DiffRecords(from, to)[k].Update?)
                          && DiffRecords(from, to)[k].oldIndex == o
  {
    DeletionsExactly(from, to);
    var d := |Deletions(from, to)|;
    forall o: nat | o < |from| && from[o] in to
      ensures exists k :: 0 <= k < |DiffRecords(from, to)| && (DiffRecords(from, to)[k].Move? || DiffRecords(from, to)[k].Update?)
                          && DiffRecords(from, to)[k].oldIndex == o
    {
      var i := FirstIndex(to, from[o]);
      var c := Report(from, to, i);
      assert DiffRecords(from, to)[d + i] == c;
      assert c.oldIndex == o;
    }
  }

  /** With nothing to compare against, every new element is reported as an insertion. */
  lemma {:induction false} EmptyFromAllInserts<T(!new)>(to: seq<T>)
    requires Distinct(to)
    ensures DiffRecords([], to) == seq(|to|, i requires 0 <= i => Insert(i))
  {
    assert Deletions([], to) == [];
  }

  /** Working copy of an unchanged sequence of distinct elements is the sequence itself. */
  lemma {:induction false} WorkingUnchanged<T(!new)>(s: seq<T>, i: nat)
    requires Distinct(s) && i <= |s|
    ensures Working(s, s, i) == s
  {
    if i == 0 {
      KeptAll(s, s);
    } else {
      WorkingUnchanged(s, i - 1);
    }
  }

  lemma {:induction false} KeptAll<T(!new)>(s: seq<T>, to: seq<T>)
    requires forall x :: x in s ==> x in to
    ensures Kept(s, to) == s
  {
    if s != [] {
      KeptAll(s[1..], to);
      assert s == [s[0]] + s[1..];
    }
  }

  lemma {:induction false} NothingDeleted<T(!new)>(from: seq<T>, to: seq<T>, i: nat)
    requires i <= |from| && forall x :: x in from ==> x in to
    ensures DeletesAbove(from, to, i) == []
    decreases |from| - i
  {
    if i < |from| {
      NothingDeleted(from, to, i + 1);
    }
  }

  /** Diffing distinct elements against themselves reports only updates with old == new. */
  lemma {:induction false} IdenticalAllUpdates<T(!new)>(s: seq<T>)
    requires Distinct(s)
    ensures DiffRecords(s, s) == seq(|s|, i requires 0 <= i => Update(i, i))
  {
    NothingDeleted(s, s, 0);
    forall i | 0 <= i < |s|
      ensures Report(s, s, i) == Update(i, i)
    {
      WorkingUnchanged(s, i);
    }
    assert Reports(s, s) == seq(|s|, i requires 0 <= i => Update(i, i));
  }

  /** Four different elements. */
  predicate Different4<T(==)>(a: T, b: T, c: T, d: T) {
    a != b && a != c && a != d && b != c && b != d && c != d
  }

  /**
   * Old children [A, B, C], new children [B, A, D]: C is deleted, and because the
   * working copy is not rearranged on a move, both B and A are reported as moves
   * before D is inserted.
   */
  lemma {:induction false} SwapReportsTwoMoves<T(!new)>(a: T, b: T, c: T, d: T)
    requires Different4(a, b, c, d)
    ensures DiffRecords([a, b, c], [b, a, d]) == [Delete(2), Move(1, 0), Move(0, 1), Insert(2)]
  {
    var from, to := [a, b, c], [b, a, d];
    SwapDeletes(a, b, c, d);
    SwapMoves(a, b, c, d);
    assert Reports(from, to) == [Report(from, to, 0), Report(from, to, 1), Report(from, to, 2)];
  }

  /** In that example B and A are both reported as moves, then D as an insertion. */
  lemma {:induction false} SwapMoves<T(!new)>(a: T, b: T, c: T, d: T)
    requires Different4(a, b, c, d)
    ensures Distinct([b, a, d])
    ensures Report([a, b, c], [b, a, d], 0) == Move(1, 0)
    ensures Report([a, b, c], [b, a, d], 1) == Move(0, 1)
    ensures Report([a, b, c], [b, a, d], 2) == Insert(2)
  {
    var from, to := [a, b, c], [b, a, d];
    SwapWorking(a, b, c, d);
    assert FirstIndex([a, b], b) == 1 by { assert [a, b][1..] == [b]; }
    assert FirstIndex(from, b) == 1 by { assert from[1..] == [b, c]; }
    assert FirstIndex([a, b], a) == 0;
    assert FirstIndex(from, a) == 0;
  }

  /** In that example the first pass deletes C only. */
  lemma {:induction false} SwapDeletes<T(!new)>(a: T, b: T, c: T, d: T)
    requires Different4(a, b, c, d)
    ensures Deletions([a, b, c], [b, a, d]) == [Delete(2)]
  {
    var from, to := [a, b, c], [b, a, d];
    assert DeletesAbove(from, to, 3) == [];
    assert DeletesAbove(from, to, 2) == [Delete(2)];
    assert DeletesAbove(from, to, 1) == [Delete(2)];
  }

  /** In that example the working copy stays [A, B] while B and A are matched. */
  lemma {:induction false} SwapWorking<T(!new)>(a: T, b: T, c: T, d: T)
    requires Different4(a, b, c, d)
    ensures Distinct([b, a, d])
    ensures Working([a, b, c], [b, a, d], 0) == [a, b]
    ensures Working([a, b, c], [b, a, d], 1) == [a, b]
    ensures Working([a, b, c], [b, a, d], 2) == [a, b]
  {
    var from, to := [a, b, c], [b, a, d];
    assert Kept(from, to) == [a, b] by {
      assert from[1..] == [b, c];
      assert from[1..][1..] == [c];
      assert [c][1..] == [];
      assert Kept([c], to) == [];
      assert Kept([b, c], to) == [b];
    }
    assert to[..1] == [b];
    assert Working(from, to, 1) == [a, b];
  }

  // ---- Counting helpers ----------------------------------------------------

  lemma {:induction false} DistinctSetSize<T(!new)>(a: seq<T>)
    requires Distinct(a)
    ensures |set x | x in a| == |a|
  {
    if a != [] {
      assert (set x | x in a) == {a[0]} + (set x | x in a[1..]);
      assert a[0] !in a[1..];
      DistinctSetSize(a[1..]);
    }
  }

  lemma {:induction false} SeqSetSize<T(!new)>(b: seq<T>)
    ensures |set x | x in b| <= |b|
  {
    if b != [] {
      assert (set x | x in b) == {b[0]} + (set x | x in b[1..]);
      SeqSetSize(b[1..]);
    }
  }

  /** A sequence covering `|a|` distinct elements is at least that long. */
  lemma {:induction false} CoveredLength<T(!new)>(a: seq<T>, b: seq<T>)
    requires Distinct(a)
    requires forall x :: x in a ==> x in b
    ensures |a| <= |b|
  {
    var sa := set x | x in a;
    var sb := set x | x in b;
    DistinctSetSize(a);
    SeqSetSize(b);
    assert sa <= sb;
    assert sa * sb == sa;
    assert |sb| == |sa| + |sb - sa|;
  }
}
