/**
 * The row arithmetic of TreeController.swift that works on a plain array of
 * children: `descendantIndexesOfItem(at:)`, `IndexSet.indexPaths(rowsShift:)` and
 * `remove(at: IndexSet)`. An `IndexSet` is a `set<int>`; the single table
 * section is left implicit, so an index path is its row.
 */
module RowMath {

  /** What the row arithmetic reads of a child: `isExpanded` and `descendantCount`. */
  datatype Item = Item(expanded: bool, count: int)

  /** The rows a child occupies among its parent's rows: itself, plus its visible descendants. */
  function Span(it: Item): int {
    1 + (if it.expanded then it.count else 0)
  }

  /** The row, relative to the parent's first child row, at which child `k` starts. */
  function Offset(items: seq<Item>, k: nat): int
    requires k <= |items|
  {
    if k == 0 then 0 else Offset(items, k - 1) + Span(items[k - 1])
  }

  /** The rows all the children occupy: what `descendantCount` caches for their parent. */
  function Total(items: seq<Item>): int {
    Offset(items, |items|)
  }

  /** Descendant counts are never negative. */
  predicate NonNegative(items: seq<Item>) {
    forall j :: 0 <= j < |items| ==> items[j].count >= 0
  }

  /** The closed range `lo...hi`. */
  function RowRange(lo: int, hi: int): (s: set<int>)
    ensures forall r :: r in s <==> lo <= r <= hi
    decreases hi - lo
  {
    if hi < lo then {} else RowRange(lo, hi - 1) + {hi}
  }

  /** `s` holds exactly the `n` rows from `lo` on. */
  ghost predicate Spans(s: set<int>, lo: int, n: int) {
    forall r :: r in s <==> lo <= r < lo + n
  }

  /** `IndexSet(integersIn: lo...hi)`: a closed range, which traps unless `lo <= hi`. */
  function Closed(lo: int, hi: int): (s: set<int>)
    requires lo <= hi
    ensures forall r :: r in s <==> lo <= r <= hi
  {
    RowRange(lo, hi)
  }

  /** What `indexPaths(rowsShift:)` names, as a set of rows: every index moved by `d`. */
  function Shift(s: set<int>, d: int): (r: set<int>)
    ensures forall x :: x in r <==> x - d in s
  {
    set x | x in s :: x + d
  }

  /**
   * The rows, relative to the parent's first child row, that child `index`
   * occupies: `n...n + descendantCount` for an expanded child and `{n}` for a
   * collapsed one, where `n` is its offset; nothing past the last child. A negative
   * `index` selects the first child, as the loop's `i >= index` test does.
   */
  function ChildRows(items: seq<Item>, index: int): set<int>
    requires NonNegative(items)
  {
    var k := if index < 0 then 0 else index;
    if k >= |items| then {}
    else if items[k].expanded then RowRange(Offset(items, k), Offset(items, k) + items[k].count)
    else {Offset(items, k)}
  }

  /** What the source's loop computes: the same, except `{index}` for a collapsed child. */
  function ChildRowsAsWritten(items: seq<Item>, index: int): set<int>
    requires NonNegative(items)
  {
    var k := if index < 0 then 0 else index;
    if k >= |items| then {}
    else if items[k].expanded then RowRange(Offset(items, k), Offset(items, k) + items[k].count)
    else {index}
  }

  /** `descendantIndexesOfItem(at:)` exactly as written. */
  method DescendantIndexesAsWritten(items: seq<Item>, index: int) returns (indexes: set<int>)
    requires NonNegative(items)
    ensures indexes == ChildRowsAsWritten(items, index)
  {
    var n := 0;
    var i := 0;
    indexes := {};
    while i < |items|
      invariant 0 <= i <= |items|
      invariant n == Offset(items, i)
      invariant indexes == {}
      invariant i > 0 ==> i - 1 < index
    {
      var child := items[i];
      if i >= index {
        if child.expanded {
          indexes := RowRange(n, n + child.count);
        } else {
          indexes := {index};
        }
        return;
      } else {
        if child.expanded {
          n := n + child.count;
        }
      }
      n := n + 1;
      i := i + 1;
    }
  }

  /** `descendantIndexesOfItem(at:)` with the collapsed case inserting the offset `n`. */
  method DescendantIndexes(items: seq<Item>, index: int) returns (indexes: set<int>)
    requires NonNegative(items)
    ensures indexes == ChildRows(items, index)
  {
    var n := 0;
    var i := 0;
    indexes := {};
    while i < |items|
      invariant 0 <= i <= |items|
      invariant n == Offset(items, i)
      invariant indexes == {}
      invariant i > 0 ==> i - 1 < index
    {
      var child := items[i];
      if i >= index {
        if child.expanded {
          indexes := RowRange(n, n + child.count);
        } else {
          indexes := {n};
        }
        return;
      } else {
        if child.expanded {
          n := n + child.count;
        }
      }
      n := n + 1;
      i := i + 1;
    }
  }

  // ---- Properties of the offsets -------------------------------------------

  lemma {:induction false} RowRangeSize(lo: int, hi: int)
    requires lo <= hi + 1
    ensures |RowRange(lo, hi)| == hi - lo + 1
    decreases hi - lo + 1
  {
    if lo == hi + 1 {
      assert RowRange(lo, hi) == {};
    } else {
      assert RowRange(lo, hi) == RowRange(lo, hi - 1) + {hi};
      RowRangeSize(lo, hi - 1);
    }
  }

  /** Offsets grow by at least one row per child, so later children start later. */
  lemma {:induction false} OffsetGrows(items: seq<Item>, j: nat, k: nat)
    requires NonNegative(items) && j <= k <= |items|
    ensures Offset(items, j) + (k - j) <= Offset(items, k)
    decreases k - j
  {
    if j < k {
      OffsetGrows(items, j, k - 1);
    }
  }

  /** The rows of a child are as many as its span. */
  lemma {:induction false} ChildRowsSize(items: seq<Item>, j: nat)
    requires NonNegative(items) && j < |items|
    ensures |ChildRows(items, j)| == Span(items[j])
  {
    ChildRowsRange(items, j);
    RowRangeSize(Offset(items, j), Offset(items, j) + Span(items[j]) - 1);
  }

  /** Two different children never share a row. */
  lemma {:induction false} ChildRowsDisjoint(items: seq<Item>, j: nat, k: nat)
    requires NonNegative(items) && j < k < |items|
    ensures ChildRows(items, j) !! ChildRows(items, k)
  {
    ChildRowsRange(items, j);
    ChildRowsRange(items, k);
    OffsetGrows(items, j + 1, k);
  }

  /** Every row of a child lies below the total. */
  lemma {:induction false} ChildRowsWithin(items: seq<Item>, j: nat)
    requires NonNegative(items) && j < |items|
    ensures forall r :: r in ChildRows(items, j) ==> 0 <= r < Total(items)
  {
    ChildRowsRange(items, j);
    OffsetGrows(items, 0, j);
    OffsetGrows(items, j + 1, |items|);
  }

  /** A child's rows are the contiguous range of its span, starting at its offset. */
  lemma {:induction false} ChildRowsRange(items: seq<Item>, k: nat)
    requires NonNegative(items) && k < |items|
    ensures ChildRows(items, k) == RowRange(Offset(items, k), Offset(items, k) + Span(items[k]) - 1)
  {
    var o := Offset(items, k);
    var hi := o + Span(items[k]) - 1;
    if items[k].expanded {
      assert hi == o + items[k].count;
      assert ChildRows(items, k) == RowRange(o, o + items[k].count);
    } else {
      assert hi == o;
      assert RowRange(o, o) == {o} by {
        assert forall r :: r in RowRange(o, o) <==> r == o;
      }
      assert ChildRows(items, k) == {o};
    }
  }

  /** Child `k`'s rows, moved past the parent's row: the range of its span after its shifted offset. */
  lemma {:induction false} ShiftedChildRows(items: seq<Item>, k: nat, d: int, lo: int, hi: int)
    requires NonNegative(items) && k < |items|
    requires lo == d + Offset(items, k) && hi == lo + Span(items[k]) - 1
    ensures Shift(ChildRows(items, k), d) == RowRange(lo, hi)
  {
    ChildRowsRange(items, k);
    var a, b := Offset(items, k), Offset(items, k) + Span(items[k]) - 1;
    assert forall r :: r in Shift(RowRange(a, b), d) <==> r in RowRange(d + a, d + b);
  }

  lemma {:induction false} EveryRowHasAChild(items: seq<Item>, r: int)
    requires NonNegative(items) && 0 <= r < Total(items)
    ensures exists k :: 0 <= k < |items| && r in ChildRows(items, k)
    decreases |items|
  {
    var last := |items| - 1;
    if r >= Offset(items, last) {
      assert r in ChildRows(items, last);
    } else {
      var front := items[..last];
      assert forall k :: 0 <= k <= last ==> Offset(front, k) == Offset(items, k) by {
        forall k | 0 <= k <= last ensures Offset(front, k) == Offset(items, k) {
          OffsetPrefix(items, last, k);
        }
      }
      EveryRowHasAChild(front, r);
      var k :| 0 <= k < |front| && r in ChildRows(front, k);
      assert r in ChildRows(items, k);
    }
  }

  /**
   * Replacing child `j`'s entry moves every later offset by the change in its
   * span, and the total with them; earlier offsets stay.
   */
  lemma {:induction false} OffsetUpdate(items: seq<Item>, j: nat, it: Item, k: nat)
    requires j < |items| && k <= |items|
    ensures Offset(items[j := it], k) == Offset(items, k) + (if j < k then Span(it) - Span(items[j]) else 0)
  {
    if k > 0 {
      OffsetUpdate(items, j, it, k - 1);
    }
  }

  lemma {:induction false} TotalUpdate(items: seq<Item>, j: nat, it: Item)
    requires j < |items|
    ensures Total(items[j := it]) == Total(items) + Span(it) - Span(items[j])
  {
    OffsetUpdate(items, j, it, |items|);
  }

  lemma {:induction false} OffsetPrefix(items: seq<Item>, m: nat, k: nat)
    requires k <= m <= |items|
    ensures Offset(items[..m], k) == Offset(items, k)
  {
    if k > 0 {
      OffsetPrefix(items, m, k - 1);
    }
  }

  /** The source's `{index}` is right exactly when the child's offset equals its position. */
  lemma {:induction false} AsWrittenAgreesWhenFlat(items: seq<Item>, k: nat)
    requires NonNegative(items) && k < |items|
    ensures ChildRowsAsWritten(items, k) == ChildRows(items, k) <==> (items[k].expanded || Offset(items, k) == k)
  {
    if !items[k].expanded && Offset(items, k) != k {
      assert k in ChildRowsAsWritten(items, k);
    }
  }

  /**
   * Where the corrected rows of child `k`, moved by `d`, are the `n` rows from
   * `d + Offset(items, k)` on, the rows as written are those too exactly when
   * the child is expanded or every child before it is collapsed.
   */
  lemma {:induction false} AsWrittenSpans(items: seq<Item>, k: nat, d: int, n: int)
    requires NonNegative(items) && k < |items|
    requires Spans(Shift(ChildRows(items, k), d), d + Offset(items, k), n)
    ensures Spans(Shift(ChildRowsAsWritten(items, k), d), d + Offset(items, k), n)
            <==> (items[k].expanded || Offset(items, k) == k)
  {
    AsWrittenAgreesWhenFlat(items, k);
    if !items[k].expanded && Offset(items, k) != k {
      var start := d + Offset(items, k);
      assert start in Shift(ChildRows(items, k), d);
      assert start !in Shift(ChildRowsAsWritten(items, k), d);
    }
  }

  /**
   * An expanded first child with two visible descendants, then a collapsed child:
   * the second child sits at relative row 3, but the source reports row 1.
   */
  lemma {:induction false} CollapsedAfterExpandedMisplaced()
    ensures ChildRowsAsWritten([Item(true, 2), Item(false, 0)], 1) == {1}
    ensures ChildRows([Item(true, 2), Item(false, 0)], 1) == {3}
  {
    var items := [Item(true, 2), Item(false, 0)];
    assert Offset(items, 1) == 3;
  }

  // ---- IndexSet.indexPaths and Array.remove(at: IndexSet) ------------------

  lemma {:induction false} Element(s: set<int>) returns (y: int)
    requires s != {}
    ensures y in s
  {
    if forall x :: x !in s {
      assert false;
    }
    y :| y in s;
  }

  lemma {:induction false} Least(s: set<int>) returns (m: int)
    requires s != {}
    ensures m in s && forall x :: x in s ==> m <= x
    decreases |s|
  {
    var y := Element(s);
    if s == {y} {
      m := y;
    } else {
      var m' := Least(s - {y});
      m := if y < m' then y else m';
      forall x | x in s ensures m <= x {
        if x != y {
          assert x in s - {y};
        }
      }
    }
  }

  lemma {:induction false} Greatest(s: set<int>) returns (m: int)
    requires s != {}
    ensures m in s && forall x :: x in s ==> x <= m
    decreases |s|
  {
    var y := Element(s);
    if s == {y} {
      m := y;
    } else {
      var m' := Greatest(s - {y});
      m := if y > m' then y else m';
      forall x | x in s ensures x <= m {
        if x != y {
          assert x in s - {y};
        }
      }
    }
  }

  /** `indexPaths(rowsShift:)`: the index set shifted by `rowsShift`, in ascending order. */
  method IndexPaths(indexes: set<int>, rowsShift: int) returns (rows: seq<int>)
    ensures forall r :: r in rows <==> r - rowsShift in indexes
    ensures forall a, b :: 0 <= a < b < |rows| ==> rows[a] < rows[b]
  {
    rows := [];
    var rest := indexes;
    while rest != {}
      invariant rest <= indexes
      invariant forall r :: r in rows <==> r - rowsShift in indexes && r - rowsShift !in rest
      invariant forall a, b :: 0 <= a < b < |rows| ==> rows[a] < rows[b]
      invariant forall a, x :: 0 <= a < |rows| && x in rest ==> rows[a] < x + rowsShift
      decreases |rest|
    {
      ghost var least := Least(rest);
      var m :| m in rest && forall x :: x in rest ==> m <= x;
      rows := rows + [m + rowsShift];
      rest := rest - {m};
    }
  }

  /** The elements of `a` whose positions are not in `at`, in their order. */
  function Keep<T>(a: seq<T>, at: set<int>): seq<T> {
    if a == [] then []
    else Keep(a[..|a| - 1], at) + (if |a| - 1 in at then [] else [a[|a| - 1]])
  }

  /** Removing at no position within range leaves the sequence as it is. */
  lemma {:induction false} KeepNothing<T>(a: seq<T>, at: set<int>)
    requires forall i :: i in at ==> i < 0 || i >= |a|
    ensures Keep(a, at) == a
  {
    if a != [] {
      KeepNothing(a[..|a| - 1], at);
    }
  }

  /** Removing every position in range `at` shortens the sequence by `|at|`. */
  lemma {:induction false} KeepLength<T>(a: seq<T>, at: set<int>)
    requires forall i :: i in at ==> 0 <= i < |a|
    ensures |Keep(a, at)| == |a| - |at|
  {
    if a != [] {
      var last := |a| - 1;
      var lower := at - {last};
      assert forall i :: i in lower ==> 0 <= i < |a[..last]|;
      KeepLength(a[..last], lower);
      KeepSame(a[..last], at, lower);
    } else if at != {} {
      var i := Element(at);
      assert false;
    }
  }

  lemma {:induction false} KeepSame<T>(a: seq<T>, at: set<int>, at': set<int>)
    requires forall i :: 0 <= i < |a| ==> (i in at <==> i in at')
    ensures Keep(a, at) == Keep(a, at')
  {
    if a != [] {
      KeepSame(a[..|a| - 1], at, at');
    }
  }

  /** Removing position `m` below every position already removed. */
  lemma {:induction false} KeepOneMore<T>(a: seq<T>, done: set<int>, m: int)
    requires 0 <= m < |a| && forall i :: i in done ==> m < i
    ensures m < |Keep(a, done)|
    ensures Keep(a, done + {m}) == Keep(a, done)[..m] + Keep(a, done)[m + 1..]
    ensures Keep(a, done)[..m] == a[..m]
    decreases |a|
  {
    var last := |a| - 1;
    var front := a[..last];
    if last == m {
      KeepNothing(front, done + {m});
      KeepNothing(front, done);
    } else {
      KeepOneMore(front, done, m);
      assert front[..m] == a[..m];
    }
  }

  /**
   * `remove(at:)`: removes the positions of `at`, highest first, so that each
   * removal leaves the positions still to be removed where they were. Every
   * position must lie inside the array (Swift's `remove(at:)` traps otherwise).
   */
  method RemoveAll<T>(a: seq<T>, at: set<int>) returns (r: seq<T>)
    requires forall i :: i in at ==> 0 <= i < |a|
    ensures r == Keep(a, at)
  {
    r := a;
    var rest := at;
    KeepNothing(a, {});
    assert at - rest == {};
    while rest != {}
      invariant rest <= at
      invariant r == Keep(a, at - rest)
      invariant forall i, j :: i in rest && j in at - rest ==> i < j
      decreases |rest|
    {
      ghost var greatest := Greatest(rest);
      var m :| m in rest && forall x :: x in rest ==> x <= m;
      KeepOneMore(a, at - rest, m);
      assert (at - rest) + {m} == at - (rest - {m});
      r := r[..m] + r[m + 1..];
      rest := rest - {m};
    }
    assert at - rest == at;
  }
}
