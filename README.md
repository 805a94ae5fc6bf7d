# The Neocom tree controller, modelled in Dafny

Neocom shows its hierarchical lists (fitting modules, sections and rows) through
`TreeController`, a `UITableView` data source whose rows come from a tree of
`TreeNode`s. Each node keeps its `children`, a `parent` back-reference, its
`index` among its siblings, `isExpanded`, a cached `descendantCount` (the number
of rows shown below it) and a cached `estimatedHeight`. The property observers
of `children`, `descendantCount` and `isExpanded` keep these consistent. They
also tell the table view which rows to insert, delete or reload. Two parts do
the real work:

- an identity-keyed two-pass diff of a node's old and new children
  (`Array.changes(from:handler:)`);
- `performTransition`, which turns the diff into row commands.

This project models that engine:

- `Wrappers`: `Option`.
- `Diff`: `changes(from:handler:)`, as the two loops written in the source. They are
  proved against a functional description: `DeletesAbove`, `Kept`, `Working` and
  `Report`.
- `RowMath`: the row arithmetic on one children array:
  - `descendantIndexesOfItem(at:)`, as written and corrected;
  - `IndexSet.indexPaths(rowsShift:)`;
  - `Array.remove(at: IndexSet)`.
- `TreeModel`: the nodes as an arena.
  - Node `n` is position `n` of a sequence; `children` and `parent` hold positions.
  - The counts are a parallel sequence.
  - Well-linkedness (`Wf`) and count consistency (`Counted`) are defined here.
  - The visible rows (`Visible`, a pre-order flattening that skips collapsed subtrees) are defined here.
  - So are the getters `indexPath` (`Row`) and `indentationLevel`.
  - The lemmas relate all of these.
- `Children`: what assigning `children` does to the links.
- `Transition`: the commands of `performTransition` and of a toggle, as functions.
  The table view is a log of `Command`s. The heights copied by `update` records
  are a list of (to, from) pairs.
- `TreeNodes`: class `Forest`, the nodes of one controller.
  - Its fields `nodes`, `counts`, `heights`, `root` and `table` are the nodes' stored properties, `rootNode` and the table view's log.
  - Its methods are the setters with their observers.
  - Each method updates the fields and is proved against the functions above.
- `Host`: class `TreeController`:
  - the row count;
  - `cellForRowAt`'s lookup and indentation;
  - selection toggling;
  - the height cache.
- `Laws`: properties of the commands read back against the visible rows:
  - expand and collapse name exactly the subtree's rows;
  - toggling twice restores every count;
  - a transition names each child's block of rows exactly when the child is expanded or every earlier child takes one row;
  - reassigning the same children tells the table nothing.

Node identity (`hashValue`/`isEqual`) is an `id: int`. `isExpandable` is a flag:
`TreeRow` is not expandable and `TreeSection` is. The hooks `changed(from:)` and
`lazyLoad()` are opaque. `changed` is a parameter, and a call of `lazyLoad()` is
logged as a command.

The arena keeps a node's children after it: a new child is either built later
or already a child of that node. This gives the recursion over the tree its
termination measure.

## Model

| member | source | states |
|---|---|---|
| Diff.FirstIndex | Neocom/Neocom/TreeController.swift:33-35 | `index(of:)` returns the first position that holds the element: it holds it, and no earlier position does |
| Diff.Kept | Neocom/Neocom/TreeController.swift:22-29 | after the first loop the working copy holds exactly the old elements that also occur in the new array, and is no longer than the old array |
| Diff.Working | Neocom/Neocom/TreeController.swift:31-45 | when the second loop reaches new index `i`, the working copy holds exactly the kept old elements plus the new elements before `i`, and is at least `i` long |
| Diff.Report | Neocom/Neocom/TreeController.swift:31-45 | the record for new index `i` is never a delete and carries `newIndex == i`; it is an insert exactly when `to[i]` is absent from `from`; otherwise its old index is the first position of `to[i]` in `from` |
| Diff.ReportsBelow | Neocom/Neocom/TreeController.swift:31-45 | the second loop reports one record per new index below `k`, in ascending order, each that index's `Report` |
| Diff.Changes | Neocom/Neocom/TreeController.swift:20-46 | the handler calls are the deletions of the first loop followed by the reports of the second, for a new array without equal elements |
| Diff.DeletionPass | Neocom/Neocom/TreeController.swift:22-29 | the first loop leaves the working copy `Kept(from, to)` and reports exactly `Deletions(from, to)` |
| Diff.ReportPass | Neocom/Neocom/TreeController.swift:31-45 | the second loop, started on the kept working copy, reports exactly `Reports(from, to)` |
| Diff.FoundStep | Neocom/Neocom/TreeController.swift:33-40 | an element found in the working copy occurs in `from`, leaves the working copy as it is (a move is not applied), and is a move when its first position there is not `i`, an update otherwise |
| Diff.InsertStep | Neocom/Neocom/TreeController.swift:41-44 | an element not found in the working copy is reported as an insert at `i` and spliced in at position `i` |
| Diff.DeletesAboveDescending | Neocom/Neocom/TreeController.swift:24-29 | the first loop from position `i` reports deletions only, of positions `i` and above, in strictly descending position |
| Diff.DeletesAboveExactly | Neocom/Neocom/TreeController.swift:24-29 | position `o` is reported deleted exactly when `i <= o < from.count` and `from[o]` has no equal in the new array |
| Diff.DeletionsExactly | Neocom/Neocom/TreeController.swift:24-29 | the first loop reports only deletes, a delete of `o` exactly when `from[o]` is absent from `to`, in strictly descending `o`, at most one per old element |
| Diff.DiffLayout | Neocom/Neocom/TreeController.swift:20-46 | all deletions come first, then exactly one record per new index in ascending order, `newIndex` equal to that index; never more records than old plus new elements |
| Diff.RecordsInRange | Neocom/Neocom/TreeController.swift:118-135 | every index handed to the handler is a valid position of its array, so `old!`, `new!`, `from![...]` and `children![...]` in `performTransition` never fail |
| Diff.OldIndicesDistinct | Neocom/Neocom/TreeController.swift:20-46 | no old position is named by two records |
| Diff.ReplayRebuilds | Neocom/Neocom/TreeController.swift:31-45 | replaying the records after the deletions, in order, puts each new element at its new index, a move or an update taking it from its old position |
| Diff.OldPositionsAccounted | Neocom/Neocom/TreeController.swift:20-45 | with distinct old elements, each old position is deleted when its element is gone and otherwise taken by a move or an update |
| Diff.NothingDeleted | Neocom/Neocom/TreeController.swift:24-29 | when every old element occurs in the new array the first loop reports nothing |
| Diff.KeptAll | Neocom/Neocom/TreeController.swift:24-29 | when every old element occurs in the new array the first loop removes nothing from the working copy |
| Diff.WorkingUnchanged | Neocom/Neocom/TreeController.swift:31-45 | diffing distinct elements against themselves, the working copy stays the array itself |
| Diff.EmptyFromAllInserts | Neocom/Neocom/TreeController.swift:31-45 | with an empty old array every new index is reported as an insert, in order |
| Diff.IdenticalAllUpdates | Neocom/Neocom/TreeController.swift:20-46 | an array of distinct elements diffed against itself gives only `update(i, i)`, one per index |
| Diff.SwapReportsTwoMoves | Neocom/Neocom/TreeController.swift:20-46 | for old `[A, B, C]` and new `[B, A, D]` the handler is called with delete 2, move 1→0, move 0→1, insert 2, in that order |
| Diff.SwapMoves | Neocom/Neocom/TreeController.swift:31-45 | in that example B and A are both reported as moves, then D as an insert at 2 |
| Diff.SwapDeletes | Neocom/Neocom/TreeController.swift:24-29 | in that example the first loop deletes position 2 (C) only |
| Diff.SwapWorking | Neocom/Neocom/TreeController.swift:34-36 | in that example the working copy stays `[A, B]` while B and A are matched, because a move does not rearrange it |
| RowMath.RowRange | Neocom/Neocom/TreeController.swift:61 | `n...(n + count)` holds exactly the integers from `n` to `n + count` |
| RowMath.Closed | Neocom/Neocom/TreeController.swift:183 | `IndexSet(integersIn: lo...hi)` holds exactly `lo` to `hi`; it exists only when `lo <= hi` (a reversed closed range traps) |
| RowMath.Shift | Neocom/Neocom/TreeController.swift:81-87 | the shifted set holds `x` exactly when `x - rowsShift` is in the original set |
| RowMath.IndexPaths | Neocom/Neocom/TreeController.swift:81-87 | the paths name exactly the indexes moved by `rowsShift`, in strictly ascending order |
| RowMath.DescendantIndexesAsWritten | Neocom/Neocom/TreeController.swift:54-77 | the loop as written returns `ChildRowsAsWritten`: `n...n+descendantCount` for an expanded child, `{index}` for a collapsed one, nothing past the end |
| RowMath.DescendantIndexes | Neocom/Neocom/TreeController.swift:54-77 | the loop with the collapsed case inserting `n` returns `ChildRows`: the rows the child occupies |
| RowMath.OffsetGrows | Neocom/Neocom/TreeController.swift:69-74 | each child moves the running offset `n` by at least one row, so later children start later |
| RowMath.ChildRowsSize | Neocom/Neocom/TreeController.swift:54-77 | the rows of child `j` are as many as its span: one, plus its `descendantCount` when it is expanded |
| RowMath.ChildRowsDisjoint | Neocom/Neocom/TreeController.swift:54-77 | two different children never share a row |
| RowMath.ChildRowsWithin | Neocom/Neocom/TreeController.swift:54-77 | every row of a child lies between 0 and the parent's total rows |
| RowMath.ChildRowsRange | Neocom/Neocom/TreeController.swift:54-77 | a child's rows are the contiguous range of its span, starting at its offset |
| RowMath.EveryRowHasAChild | Neocom/Neocom/TreeController.swift:54-77 | every row below the parent's total belongs to some child, so the children's rows cover the parent's rows |
| RowMath.ShiftedChildRows | Neocom/Neocom/TreeController.swift:121-129 | a child's rows shifted past the parent's row are the range of its span from the shifted offset |
| RowMath.OffsetUpdate | Neocom/Neocom/TreeController.swift:149-157 | changing one child's flag or count moves the offsets after it by the change of its span and no others |
| RowMath.TotalUpdate | Neocom/Neocom/TreeController.swift:149-157 | changing one child's flag or count moves the parent's total by the change of its span |
| RowMath.AsWrittenAgreesWhenFlat | Neocom/Neocom/TreeController.swift:59-66 | the source's result is right exactly when the child is expanded or its row offset equals its position |
| RowMath.AsWrittenSpans | Neocom/Neocom/TreeController.swift:59-66 | where the corrected rows are a range, the rows as written are that range exactly when the child is expanded or its row offset equals its position |
| RowMath.CollapsedAfterExpandedMisplaced | Neocom/Neocom/TreeController.swift:59-66 | after an expanded child with two visible descendants, a collapsed child sits at relative row 3 but the source reports row 1 |
| RowMath.KeepLength | Neocom/Neocom/TreeController.swift:48-52 | removing a set of in-range positions shortens the array by the size of the set |
| RowMath.KeepOneMore | Neocom/Neocom/TreeController.swift:49-50 | removing a position below all those removed so far is a plain `remove(at:)` on the current array, and leaves the positions before it untouched; this is why removing the highest first is right |
| RowMath.RemoveAll | Neocom/Neocom/TreeController.swift:48-52 | `remove(at:)` leaves exactly the elements whose positions are not in the set, in their order |
| TreeModel.CountIsVisible | Neocom/Neocom/TreeController.swift:99-108 | in a consistent arena every cached `descendantCount` is the number of visible rows below the node |
| TreeModel.CountsNonNegative | Neocom/Neocom/TreeController.swift:149 | consistent counts are never negative |
| TreeModel.BlockSplit | Neocom/Neocom/TreeController.swift:54-77 | the rows from child `j` on start with child `j`'s block, whose length is the span the counts give it |
| TreeModel.BlockAt | Neocom/Neocom/TreeController.swift:54-77 | child `k`'s block sits among its parent's rows at child `k`'s offset |
| TreeModel.VisibleAt | Neocom/Neocom/TreeController.swift:196-216 | child `k` is the row at its offset among its parent's rows, and, when expanded, its own rows follow it |
| TreeModel.Top | Neocom/Neocom/TreeController.swift:256-264 | the node whose controller a node uses: the end of its parent chain, never after it and without a parent |
| TreeModel.Row | Neocom/Neocom/TreeController.swift:221-240 | `indexPath` exists exactly when every ancestor is expanded, and is row −1 for a node without a parent |
| TreeModel.IndentationLevel | Neocom/Neocom/TreeController.swift:242-251 | `indentationLevel` exists exactly when every ancestor is expanded, and is then one less than the number of ancestors |
| TreeModel.KidRow | Neocom/Neocom/TreeController.swift:225-237 | the row of a child of an expanded node with a row is the parent's row, plus one, plus the rows of the siblings before it |
| TreeModel.RowsOfVisible | Neocom/Neocom/TreeController.swift:221-240 | below an expanded node with row `r`, the node at position `i` of the visible rows has row `r + 1 + i` and the same top |
| TreeModel.VisibleEmbeds | Neocom/Neocom/TreeController.swift:221-240 | the rows below an expanded node with a row sit, in order, among the rows of its top node, right after its own row |
| TreeModel.RowRoundTrip | Neocom/Neocom/TreeController.swift:196-240 | a node with a parent and a row `r` is the visible row `r` of its top node |
| TreeModel.CountsDetermined | Neocom/Neocom/TreeController.swift:149-157 | two consistent count assignments of the same arena are equal |
| TreeModel.TotalAfterCount | Neocom/Neocom/TreeController.swift:149-157 | changing a node's count changes only its parent's total, and only when the node is expanded |
| TreeModel.Flip | Neocom/Neocom/TreeController.swift:171 | setting `isExpanded` keeps identities, children, parents and positions |
| TreeModel.TotalAfterFlip | Neocom/Neocom/TreeController.swift:180 | flipping a node's flag changes only its parent's total, by the node's count |
| TreeModel.RowFrame | Neocom/Neocom/TreeController.swift:221-240 | the row of a node on `z`'s ancestor chain reads neither `z`'s flag nor any count on that chain |
| TreeModel.PendingStart | Neocom/Neocom/TreeController.swift:149-152 | storing the count a node should have leaves only its parent short, by the change |
| TreeModel.PendingStep | Neocom/Neocom/TreeController.swift:153 | adding the change to an expanded node's parent moves the shortfall one level up |
| TreeModel.PendingDone | Neocom/Neocom/TreeController.swift:151-153 | the chain stops at a collapsed node, a zero change or a node without parent with every count consistent |
| TreeModel.FlipEmpty | Neocom/Neocom/TreeController.swift:180 | flipping a node with no rows below it keeps every count consistent |
| TreeModel.FlipPending | Neocom/Neocom/TreeController.swift:180 | flipping a node's flag leaves its parent's count off by exactly the node's count, and no other count |
| TreeModel.AppendLoose | Neocom/Neocom/TreeController.swift:149 | a new node without parent or children joins a consistent arena with a zero count |
| Children.DetachAt | Neocom/Neocom/TreeController.swift:95-97 | the first loop clears `parent` on each old child and touches no other node |
| Children.LinkAt | Neocom/Neocom/TreeController.swift:101-107 | the second loop gives the child at position `k` `parent = self` and `index = k`, and touches no other node |
| Children.RelinkAt | Neocom/Neocom/TreeController.swift:93-108 | after the assignment: the node holds the new array, each new child points to it at its position, each dropped child is detached, and every other node is unchanged |
| Children.RelinkKeeps | Neocom/Neocom/TreeController.swift:93-108 | the assignment keeps every identity and flag and every other node's children |
| Children.RelinkKids | Neocom/Neocom/TreeController.swift:93-108 | afterwards the node's children are the new array and every other node's are its own |
| Children.RelinkWf | Neocom/Neocom/TreeController.swift:93-108 | assigning loose or own children, later in the arena and with distinct identities, keeps the arena well linked |
| Children.RelinkCounted | Neocom/Neocom/TreeController.swift:99-108 | afterwards every count is consistent except the node's own, which should be the new children's rows |
| Transition.TransitionEffects | Neocom/Neocom/TreeController.swift:113-145 | every height copy a transition makes is between nodes of the arena |
| Laws.ExpandShowsSubtree | Neocom/Neocom/TreeController.swift:182-190 | an expand inserts the rows `row+1 ... row+count`, and those rows of the root's list hold the node's visible descendants in order |
| Laws.CollapseHidesSubtree | Neocom/Neocom/TreeController.swift:182-190 | collapsing a node deletes exactly the rows expanding it inserts |
| Laws.ToggleTwiceRestores | Neocom/Neocom/TreeController.swift:171-194 | toggling a node and toggling it back restores the nodes and every count |
| Laws.ChildRowsShown | Neocom/Neocom/TreeController.swift:121-130 | the corrected rows for child `i` are one range that starts after the earlier children's rows and is as long as the child's block; the rows the source names are that range exactly when the child is expanded or every earlier child takes one row |
| Laws.BlockBelowTop | Neocom/Neocom/TreeController.swift:221-240 | from the row `indexPath` gives child `i` on, the root's rows hold exactly the child's block |
| Laws.SameChildrenQuiet | Neocom/Neocom/TreeController.swift:93-145 | reassigning the same children, with `changed(from:)` false, issues no command and leaves every height as it was |
| Laws.AssignSameQuiet | Neocom/Neocom/TreeController.swift:93-145 | relinking and recounting for the same children leave the arena and every count as they were, and the transition that follows is silent |
| Children.SameRelink | Neocom/Neocom/TreeController.swift:93-108 | assigning a node the children it already has is allowed and leaves every link as it was |
| TreeNodes.Forest.constructor | Neocom/Neocom/TreeController.swift:282-288 | a controller starts consistent, with no nodes, no `rootNode` and nothing told to the table |
| TreeNodes.Forest.Build | Neocom/Neocom/TreeController.swift:93-110 | building a tree adds a loose node with the tree's identity and flags and children of the tree's identities, keeps the existing nodes and stays consistent; every new node starts without a cached height |
| TreeNodes.Forest.Grow | Neocom/Neocom/TreeController.swift:93-110 | the same on values: the arena and counts are extended, the prefix is unchanged, and consistency is kept |
| TreeNodes.Forest.GrowKids | Neocom/Neocom/TreeController.swift:102-107 | the subtrees are built after the existing nodes as loose nodes with the trees' identities, keeping consistency |
| TreeNodes.Forest.AssignChildren | Neocom/Neocom/TreeController.swift:93-110 | `children = kids` relinks the nodes, keeps every count consistent and changes only counts on the node's ancestor chain; the heights and table then follow the transition from the old children. Assigning the same children, with `changed(from:)` false, changes nothing |
| TreeNodes.Forest.Assign | Neocom/Neocom/TreeController.swift:93-108 | the relinked arena with consistent counts; only the node and its ancestors change count |
| TreeNodes.Forest.DetachAll | Neocom/Neocom/TreeController.swift:95-97 | the first loop computes `Detach` |
| TreeNodes.Forest.LinkAll | Neocom/Neocom/TreeController.swift:99-107 | the second loop computes `Link` and a count of one row per child plus each expanded child's count |
| TreeNodes.Forest.SetCount | Neocom/Neocom/TreeController.swift:149-157 | setting the one stale count makes every count consistent and changes only the node's and its ancestors' counts |
| TreeNodes.Forest.Recount | Neocom/Neocom/TreeController.swift:149-157 | the same on values |
| TreeNodes.Forest.PassUp | Neocom/Neocom/TreeController.swift:151-153 | walking the change up through expanded ancestors ends with every count consistent, changing none off the chain |
| TreeNodes.Forest.SetExpanded | Neocom/Neocom/TreeController.swift:171-194 | `isExpanded = v` flips only the flag and keeps counts consistent without moving the node's own count or any count off its ancestors. The table gets a `lazyLoad` on expanding unloaded children, nothing for an unchanged flag, and otherwise the toggle's rows |
| TreeNodes.Forest.Toggle | Neocom/Neocom/TreeController.swift:171-194 | the same on values |
| TreeNodes.Forest.ToggleRows | Neocom/Neocom/TreeController.swift:182-190 | the toggle's commands: the rows `1...descendantCount` past the node's row, inserted or deleted, only for a node under the root with a row |
| TreeNodes.Forest.SubtreeRows | Neocom/Neocom/TreeController.swift:183 | `1...count` shifted by `row` is exactly `row+1 ... row+count` |
| TreeNodes.Forest.PerformTransition | Neocom/Neocom/TreeController.swift:113-145 | the heights and the table log change exactly as the transition's effects say |
| TreeNodes.Forest.Transition | Neocom/Neocom/TreeController.swift:113-145 | the same on values: nothing unless the node is expanded, under the root and has a row, otherwise each diff record's effects in order |
| TreeNodes.Forest.CarryOut | Neocom/Neocom/TreeController.swift:118-130 | a delete, insert or move record issues the rows `descendantIndexesOfItem` computes on the old or new array, as written, shifted by row + 1, delete before insert |
| TreeNodes.Forest.CarryUpdate | Neocom/Neocom/TreeController.swift:131-139 | an update record copies the height, recurses into the new node against the old node's children, and reloads the new node's row when `changed` says so |
| TreeNodes.Forest.SetHeight | Neocom/Neocom/TreeController.swift:362 | storing a height changes that node's height only |
| TreeNodes.Forest.SetRoot | Neocom/Neocom/TreeController.swift:283-288 | setting `rootNode` logs one `reloadData` |
| TreeNodes.Forest.NodeAt | Neocom/Neocom/TreeController.swift:196-216 | `node(at: i)` is the `i`-th visible row below the node, and nil for a negative `i` or one at or past the count |
| TreeNodes.Forest.Lookup | Neocom/Neocom/TreeController.swift:196-216 | the same on values, through the guard, the child loop and the recursive calls as written |
| TreeNodes.LookupStep | Neocom/Neocom/TreeController.swift:199-213 | at each child of the loop: 0 names the child itself, the next `descendantCount` positions of an expanded child are its rows, and past them the search goes on from the next child |
| TreeNodes.Forest.RowsOf | Neocom/Neocom/TreeController.swift:121-129 | `descendantIndexesOfItem` as written (`{index}` for a collapsed child) then `indexPaths(rowsShift:)` give those rows shifted |
| Host.RowThenNode | Neocom/Neocom/TreeController.swift:196-240 | `rootNode.node(at: n.indexPath.row)` is `n` for every node under the root with a row |
| Host.DisplayedHeightEstimated | Neocom/Neocom/TreeController.swift:350-363 | once a row has been displayed at height `h`, its estimate is `h` |
| Host.TreeController.constructor | Neocom/Neocom/TreeController.swift:282-290 | a controller over a consistent set of nodes |
| Host.TreeController.NumberOfRows | Neocom/Neocom/TreeController.swift:304-306 | the row count is the number of visible rows below `rootNode`, 0 without one |
| Host.TreeController.CellForRowAt | Neocom/Neocom/TreeController.swift:308-320 | the cell's node is the row's node. Under an expanded root without parent, that node's `indexPath` is the row again, and its indentation is one less than its number of ancestors |
| Host.TreeController.DidSelectRowAt | Neocom/Neocom/TreeController.swift:332-342 | selecting an expandable node's row toggles it, with the toggle's counts and commands; any other row changes nothing |
| Host.TreeController.EstimatedHeightForRowAt | Neocom/Neocom/TreeController.swift:350-358 | the node's cached height, else the table's positive estimate, else automatic; automatic for a row without a node |
| Host.TreeController.WillDisplay | Neocom/Neocom/TreeController.swift:360-363 | the displayed height is cached on the row's node, and nothing changes for a row without one |

## Left out

- UIKit is not modelled:
  - `beginUpdates`/`endUpdates`;
  - cell dequeueing and configuration, and the `Expandable` cell protocol;
  - delegate callbacks, `editActionsForRowAt`, `numberOfSections` and `moveRowAt`;
  - `cell(for:)` and `node(for:)`, which need the table view's own cell-to-row mapping.
- The table view is a command log. Animations are not recorded.
- The weak `treeController` lookup up the parent chain is replaced by comparing the top of the chain with `rootNode`. Weak references, and nodes of another controller, are not modelled.
- `lazyLoad()` and `changed(from:)` are opaque hooks. A `lazyLoad()` call is logged; what it loads, and when, is left to the caller (no asynchrony).
- Heights are `int`, not `CGFloat`. `UITableViewAutomaticDimension` is a separate value. `tableView.estimatedRowHeight` and the displayed cell height are parameters.
- A node's `children` may name only nodes after it in the arena that are loose or already its own children. Moving a node from one parent to another is not modelled.
- TreeNodes.Forest.Build: the app's own construction of nodes is modelled as building a loose tree with its `children` assigned bottom-up. Those nodes are not under the root, so their transitions issue nothing, and the model does not run them.
- TreeNodes.Forest.SetExpanded: requires a node under the root with a row to have at least one row below it when its flag changes, because `1...0` traps at line 183.
- Diff.Changes: requires the new array to hold no two equal elements. Otherwise `arr.insert(obj, at: i)` can be asked for a position past the end.
- Diff.Changes: an element whose position changes is reported as a move, not an update, because `arr` is not rearranged on a move (Diff.SwapReportsTwoMoves).
- Not modelled: concurrency and main-queue hops in callers. The model is single-threaded.

## Findings

| source | as written | input that shows it | evidently intended | confidence | as-written member | corrected member |
|---|---|---|---|---|---|---|
| Neocom/Neocom/TreeController.swift:63-65 | for a collapsed child, `descendantIndexesOfItem(at: index)` inserts `index`, the child's position among its siblings | children `[expanded with 2 visible descendants, collapsed]`, `index` 1: returns `{1}`, but the collapsed child's row is 3 | insert the running row offset `n`, as the expanded case does | high (not executed) | RowMath.DescendantIndexesAsWritten, RowMath.CollapsedAfterExpandedMisplaced | RowMath.DescendantIndexes, RowMath.ChildRowsRange, Laws.ChildRowsShown |

The transition (`Transition.RecordEffects`, `TreeNodes.Forest.RowsOf`) issues the rows as written. `Laws.ChildRowsShown` states when they are the child's block.
