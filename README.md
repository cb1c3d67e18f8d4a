# Tree-view selection engine of UIFramework, in Dafny

This project models the selection engine of the UIFramework outliner control.
It covers five parts:

- **`TreeView`** (`tree_view.dfy`, with the walks in `outline.dfy`):
  - the `SelectedNodes` list and its mutators;
  - the per-frame reconciliation of every node's `IsSelected` flag with that list;
  - the search filter;
  - click resolution for plain, ctrl and shift clicks and for keyboard focus;
  - the shift-click range walk;
  - the delayed rename and its commit;
  - the checkbox fan-out to the selection;
  - the scroll-offset walk behind `ScrollToSelected` and the scroll handshake with the window;
  - the wiring of the selection box, including the start handler that drops the selection when a drag begins without ctrl.
- **`TreeNode`** (`tree_node.dfy`, with the header order in `header_order.dfy`):
  - the change-notifying setters, including the `IsChecked` cascade over the subtree;
  - `AddChild` and the index maintenance;
  - `ExpandParent`;
  - the in-place `Sort` / `SortByDescending`.
- **`SelectionBox`** (`selection_box.dfy`): the idle/active rubber band and its one-shot overlap rule.
- **`BoundingBox2D`** (`geometry.dfy`): the strict overlap test.
- **`FileFilter`** (`file_filter.dfy`): the two constructors and `CreateFilter`, with a split of the result back into its fields.

The .NET string tests are modelled in `text_search.dfy`: `string.IsNullOrWhiteSpace` and `IndexOf(…, OrdinalIgnoreCase)`.
`List<T>.IndexOf`, `Remove` and `ObservableCollection<T>.Move` are modelled in `seqs.dfy`.

## How the model is built

- **Objects and their state.**
  - `TreeNode`, `TreeView` and `SelectionBox` are classes whose methods update their fields in place.
  - `BoundingBox2D` and `FileFilter` are values.
  - A node carries a ghost `repr`, the node and everything below it. Its `Valid()` says the children form a finite tree, and it reads only the structural fields. Selecting, checking or expanding a node therefore never disturbs it.
- **Notifications** (`OnSelectionChanged`, `OnSelected`, `OnChecked`, `OnHeaderChanged`, `OnHeaderRenamed`, `OnNodeChecked`, `OnNodeLeftClicked`, `OnDoubleClicked`) become logs of senders or counters.
- **ImGui inputs become parameters.** Everything ImGui reports is passed in: clicks, double clicks, hovering, focus, toggling, the ctrl and shift keys, the mouse position, item rectangles, the clock and the text line height. ImGui's own state stays out of the model.
- **Recursive walks are specified against ghost functions.** Each walk of `TreeView` is a method with loops and invariants, specified by a ghost function over the tree:
  - `Order` / `OrderList` give the pre-order that the draw and scroll walks follow;
  - `Walk` / `WalkList` give the range walk;
  - `Position` / `PositionList` give the offset walk.
  - Lemmas then state what those functions mean in terms of the flattened pre-order.

### Behaviour that follows the code

Where the documented behaviour of the control differs from its code, the model follows the code.

- **The range walk does not stop at a nested second end.**
  - The recursive `SelectNodeRange` returns `true` on meeting the second end while in range.
  - The caller's loop breaks on that, then returns `false` itself (TreeView.cs:470-474).
  - The walk therefore carries on, still in range, after the subtree that held the second end. `Outline.OverrunPastNestedEnd` shows a concrete forest where a later root is selected.
- **The walk only sets flags.**
  - It never adds to `SelectedNodes`; the list catches up on the next draw through the reconciliation.
  - It never flags either end.
- **A dangling anchor selects the rest of the tree.** If the anchor is no longer among the shown rows, the walk becomes in range at the clicked node and never meets a second end. Every shown row after the clicked node is flagged (`Outline.DanglingAnchorMarksRest`).
- **The rename target is never cleared.** `renameNode` survives a commit, and a commit goes ahead whatever node is passed.
- **Enter plus a click outside commits twice.** If both happen on the same frame, `OnHeaderRenamed` is raised twice.
- **A zero time disarms the rename timer.** A click stored at time `0.0` is indistinguishable from "not armed", as in the code.
- **The checkbox value comes from the clicked row.** It is the negation of the clicked row's own flag, and it is applied to the subtrees of the selected nodes only.
- **Boxes are stored as given.** The `BoundingBox2D` constructor does not order its corners. A degenerate box (zero width or height) does not overlap itself, but a flat box can still overlap a proper box that it strictly crosses.

## Model

| member | source | states |
|---|---|---|
| TreeViews.TreeView.constructor | UIFramework/src/TreeView/TreeView.cs:76-82 | A new view has no roots, an empty selection, no search, no rename in progress, and an enabled, idle selection box |
| TreeViews.TreeView.AddSelection | UIFramework/src/TreeView/TreeView.cs:84-91 | A listed node changes nothing and raises nothing. Otherwise the node is flagged, appended once and announced once with itself as sender. The list stays duplicate-free |
| TreeViews.TreeView.RemoveSelection | UIFramework/src/TreeView/TreeView.cs:93-100 | An unlisted node changes nothing. Otherwise the node is unflagged, its one entry removed and one notification raised. Every other node keeps its membership |
| TreeViews.TreeView.DeselectAll | UIFramework/src/TreeView/TreeView.cs:102-110 | The list ends empty and every formerly listed node unflagged, with one `OnSelected` per actual change. Exactly one `null`-sender notification is raised, even for an empty list. Unlisted nodes are untouched |
| TreeViews.TreeView.SelectionStarted | UIFramework/src/TreeView/TreeView.cs:78-81 | The box's start handler: without ctrl the selection is dropped as in `DeselectAll` (list emptied, one null-sender notification, old nodes unflagged with one `OnSelected` per change, every other node's flag and count kept); with ctrl the list, the log, the flags and the counts are unchanged |
| TreeViews.TreeView.ClearSelection | UIFramework/src/TreeView/TreeView.cs:396-401 | The reset inside click resolution: every listed node is unflagged and the list emptied. No `OnSelectionChanged` is raised, and unlisted nodes are untouched |
| TreeViews.TreeView.Reconcile | UIFramework/src/TreeView/TreeView.cs:245-251 | A flagged node missing from the list is added and an unflagged listed node removed (`Reconciled`). No flag changes, and the subtree's listing is unchanged |
| TreeViews.TreeView.DrawNode | UIFramework/src/TreeView/TreeView.cs:239-265 | Over the node's pre-order, with children included during a search or when expanded, the list ends as `ReconciledAll`. The rows drawn are exactly the visible nodes of that pre-order, in order, and no flag changes |
| TreeViews.TreeView.DrawBelow | UIFramework/src/TreeView/TreeView.cs:257-264 | Children are walked only during a search or when the node is expanded, with the same reconciliation and drawn rows as `DrawNode` |
| TreeViews.TreeView.DrawList | UIFramework/src/TreeView/TreeView.cs:259-260 | The loop over a child list reconciles and draws the concatenated pre-orders of the children, in order |
| TreeViews.TreeView.DrawChild | UIFramework/src/TreeView/TreeView.cs:259-260 | One pass of that loop: the child's pre-order is reconciled and drawn, and the rest of the listing is left as it was |
| TreeViews.TreeView.DrawTree | UIFramework/src/TreeView/TreeView.cs:185-186 | After the walk over the roots, every node the walk met is listed exactly when it is flagged, other nodes keep their membership, and no flag changes. The drawn rows are `Shown` of the walk's pre-order |
| TreeViews.TreeView.SelectNodeRange | UIFramework/src/TreeView/TreeView.cs:437-448 | With no anchor, or the anchor equal to the clicked node, nothing changes. Otherwise each node's flag becomes old flag or marked by `RangeWalk`, so flags only ever go from false to true. One `OnSelected` per newly flagged node and one view notification per in-range end met. Together with `Outline.RangeWalkMarksAfterFirstEnd` (upper bound) and `Outline.RangeWalkMarksBetweenEnds` (lower bound), every row strictly between the two ends ends up flagged and nothing before the first end does |
| TreeViews.TreeView.SelectRange | UIFramework/src/TreeView/TreeView.cs:450-475 | The recursive walk of one subtree has exactly the stop flag, the `isInRange` out-value, the flags and the notifications of `Walk` |
| TreeViews.TreeView.SelectRangeList | UIFramework/src/TreeView/TreeView.cs:470-472 | The child (or root) loop that breaks on the first `true` has the effect of `WalkList` |
| TreeViews.TreeView.SelectRangeLoop | UIFramework/src/TreeView/TreeView.cs:470-472 | The same loop stated against the flags and counts it started from |
| TreeViews.TreeView.SelectRangeChild | UIFramework/src/TreeView/TreeView.cs:471-472 | One pass of that loop extends the accumulated outcome by the child's `Walk` |
| TreeViews.TreeView.GetNodePosition | UIFramework/src/TreeView/TreeView.cs:690-713 | The found flag and the offset equal `Position`, whose meaning is given by `Outline.PositionFlat` |
| TreeViews.TreeView.GetListPosition | UIFramework/src/TreeView/TreeView.cs:707-710 | The loop that returns on the first `true` equals `PositionList` |
| TreeViews.TreeView.ScrollToSelected | UIFramework/src/TreeView/TreeView.cs:112-135 | A null or already-selected target changes nothing. Otherwise every ancestor is expanded and a scroll is requested. The offset is (line height + 3) times the number of visible nodes before a visible target in the expanded pre-order of the roots, or times the number of all visible nodes when the target is not listed |
| TreeViews.TreeView.ExpandAndScroll | UIFramework/src/TreeView/TreeView.cs:122-134 | `ScrollToSelected` past its guard: ancestors expanded, then the same offset |
| TreeViews.TreeView.ScrollToRow | UIFramework/src/TreeView/TreeView.cs:124-134 | The root loop of the offset walk sets `ScrollY` to that offset and requests a scroll |
| TreeViews.TreeView.UpdateScroll | UIFramework/src/TreeView/TreeView.cs:137-142 | Both offsets are stored and a scroll is requested |
| TreeViews.TreeView.SyncScroll | UIFramework/src/TreeView/TreeView.cs:173-181 | With a scroll requested, the stored offsets are left as they are, to be handed to ImGui, which applies them on the next frame (clamped to the content). Otherwise the offsets the window reports are stored |
| TreeViews.TreeView.EndFrame | UIFramework/src/TreeView/TreeView.cs:216 | The scroll request is cleared at the end of the frame, so a request is pushed on one frame only |
| TreeViews.TreeView.EditSearchText | UIFramework/src/TreeView/TreeView.cs:233-235 | The text is taken. Search mode is on exactly when some character of it is not white space |
| TreeViews.TreeView.HandleRenaming | UIFramework/src/TreeView/TreeView.cs:477-523 | The rename fields move as `RenameStep` prescribes, with `ImGui.GetTime()` as `now` |
| TreeViews.RenameStep | UIFramework/src/TreeView/TreeView.cs:477-523 | `ActivateRename` enters editing at once with the header and resets the timer. A click while armed disarms and does not re-arm. While armed, editing starts only once strictly more than 0.5 has passed. A click while disarmed arms with the current time. Editing never starts from a disarmed state without activation |
| TreeViews.TreeView.CommitRename | UIFramework/src/TreeView/TreeView.cs:549-553 | The typed text becomes the header (one `OnHeaderChanged` when it differs), `OnHeaderRenamed` is raised once, and `ActivateRename` and editing end |
| TreeViews.TreeView.DrawRenamingNode | UIFramework/src/TreeView/TreeView.cs:544-564 | Enter commits and a click outside commits, once each. With neither, the header, the activation and the editing state are kept |
| TreeViews.TreeView.HandleCheckbox | UIFramework/src/TreeView/TreeView.cs:577-594 | Without a click nothing changes. A click sets the negation of the clicked row's flag on every node below every selected node, leaves all other nodes as they were, and raises `OnNodeChecked` once |
| TreeViews.TreeView.FocusRow | UIFramework/src/TreeView/TreeView.cs:353-360 | Focus on a row makes it the focused node. The result says whether focus moved there on this frame |
| TreeViews.TreeView.HoverRow | UIFramework/src/TreeView/TreeView.cs:315-316 | Hovering a row while the box is idle disables the box; nothing else changes it |
| TreeViews.TreeView.HandleDragDrop | UIFramework/src/TreeView/TreeView.cs:616-625 | The box is disabled and the dragged node remembered |
| TreeViews.TreeView.ApplySelectionBox | UIFramework/src/TreeView/TreeView.cs:199-210 | With the box in use, focus and no rename, the box runs one frame of `Inputs`. Losing focus resets an active box. Otherwise the box is left alone. The focus is remembered in every case. A drag that starts runs the start handler: without ctrl the selection list is emptied, its old nodes unflagged with one `OnSelected` per change, every other node's flag and count kept, and one null-sender notification logged; with ctrl, or with no start, the selection, its log and every flag and count are unchanged |
| TreeViews.TreeView.ClickSelect | UIFramework/src/TreeView/TreeView.cs:393-411 | A plain click leaves exactly the clicked node selected, announced and the anchor, and unflags the rest of the old selection. Ctrl adds the node and changes no other flag. Shift keeps the anchor and flags the nodes `RangeWalk` marks. In every case the node ends flagged and listed |
| TreeViews.TreeView.FlagAndAdd | UIFramework/src/TreeView/TreeView.cs:410-411 | The node is flagged and appended unless already listed, with one notification when appended |
| TreeViews.TreeView.FocusSelect | UIFramework/src/TreeView/TreeView.cs:413-425 | Focus arriving without modifiers leaves exactly that node selected; with ctrl or shift it is added and no other flag changes. The anchor stays |
| TreeViews.TreeView.ResolveClick | UIFramework/src/TreeView/TreeView.cs:380-434 | A ctrl+left-click on a selected node removes it. A click that did not toggle selects as in `ClickSelect`. Focus arriving on an unselected row selects as in `FocusSelect`. Otherwise the selection, its log, the roots and every flag are kept. A ctrl-removal logs one notification when the node was listed and leaves every other flag alone. A plain click or focus without modifiers leaves exactly `[node]` listed, logs it and unflags the old selection; with ctrl or shift the node is appended if absent, and a ctrl click or a modified focus keeps every other flag. `OnNodeLeftClicked` fires for a left click on a node that ends selected, and the double-click hook runs for a non-toggling double click on a node that ends selected |
| TreeViews.Reconciled | UIFramework/src/TreeView/TreeView.cs:245-251 | One reconciliation step keeps the list duplicate-free and leaves the node listed exactly when flagged |
| TreeViews.ReconciledAll | UIFramework/src/TreeView/TreeView.cs:245-260 | Reconciling a whole listing keeps the list duplicate-free |
| TreeViews.ReconciledOthers | UIFramework/src/TreeView/TreeView.cs:245-251 | A reconciliation step does not change any other node's membership |
| TreeViews.ReconciledAllAgrees | UIFramework/src/TreeView/TreeView.cs:245-260 | After reconciling a listing, each listed node is in the list exactly when flagged, and each unlisted node is in it exactly when it was before |
| TreeViews.ViewEvents | UIFramework/src/TreeView/TreeView.cs:456 | `k` notifications, each sent by the view itself: the range walk's senders |
| Outline.HasText | UIFramework/src/TreeView/TreeView.cs:242-243 | The header (never null, since the getter yields `<NULL>`) holds the search text somewhere, ignoring case |
| Outline.ShownMembers | UIFramework/src/TreeView/TreeView.cs:253-255 | A node is drawn exactly when it is listed and either search is off or its header holds the search text |
| Outline.ShownAll | UIFramework/src/TreeView/TreeView.cs:253 | Without a search every listed node is drawn |
| Outline.WalkShape | UIFramework/src/TreeView/TreeView.cs:450-475 | Below a node the range walk stops only when already in range, ends in range exactly when it was or met an end, marks only listed nodes (none inside a collapsed node), and never marks an end |
| Outline.WalkListShape | UIFramework/src/TreeView/TreeView.cs:468-474 | The same facts for the loop over a child list |
| Outline.RangeWalkMarksAfterFirstEnd | UIFramework/src/TreeView/TreeView.cs:437-475 | Over the forest, the walk marks only nodes after the first end in the expanded pre-order and never an end, and it ends in range exactly when an end is listed. This is the upper bound that `Outline.RangeWalkMarksBetweenEnds` pairs with |
| Outline.RangeWalkMarksBetweenEnds | UIFramework/src/TreeView/TreeView.cs:437-475 | Lower bound: when the first end is at position `i` of the expanded pre-order and no end lies in `(i, j]`, the row at `j` is marked (in-range flagging at 461-462, the walk stops only at an end at 455-457) |
| Outline.DanglingAnchorMarksRest | UIFramework/src/TreeView/TreeView.cs:437-475 | With the anchor not among the shown rows and the clicked node shown once, the marked set is exactly the rows after the clicked node |
| Outline.WalkCovers | UIFramework/src/TreeView/TreeView.cs:450-475 | Within one subtree, every row of its expanded pre-order before the first end met (after the first end, if the walk enters out of range) is marked |
| Outline.WalkListCovers | UIFramework/src/TreeView/TreeView.cs:468-474 | The same lower bound for the loop over the children, from child `i` on |
| Outline.RangeWalkSparesPrefix | UIFramework/src/TreeView/TreeView.cs:437-475 | In a pre-order without repeats, no node up to the first end is touched |
| Outline.OverrunPastNestedEnd | UIFramework/src/TreeView/TreeView.cs:468-474 | A `true` from a nested end is not passed up: with roots `[r, s]` and both ends as leaf children of `r`, the later root `s` is selected |
| Outline.PositionFlat | UIFramework/src/TreeView/TreeView.cs:690-713 | Measured over the expanded pre-order of a subtree: a visible target is found at one step per visible node before it; a target the search hides is not found; an absent target is not found after one step per visible node |
| Outline.PositionListFlat | UIFramework/src/TreeView/TreeView.cs:707-710 | The same for the loop over children or roots, over their concatenated pre-orders |
| Outline.StepsProduct | UIFramework/src/TreeView/TreeView.cs:704 | `k` steps of `itemHeight` make `k * itemHeight` |
| TextSearch.IsNullOrWhiteSpace | UIFramework/src/TreeView/TreeView.cs:234 | True exactly for null or for text made only of white space; the empty text counts |
| TextSearch.IndexOfIgnoreCase | UIFramework/src/TreeView/TreeView.cs:242-243 | The first position where the search text occurs ignoring case, or -1 exactly when it occurs nowhere |
| TextSearch.EmptyTextFoundAtStart | UIFramework/src/TreeView/TreeView.cs:242-243 | An empty search text is found at position 0 of every header |
| TextSearch.ExactOccurrenceFound | UIFramework/src/TreeView/TreeView.cs:242-243 | A header holding the search text verbatim passes the filter, no later than that occurrence |
| TextSearch.CaseOfTextIrrelevant | UIFramework/src/TreeView/TreeView.cs:242-243 | Changing the case of letters in the search text does not change the result |
| TextSearch.LongerTextNarrows | UIFramework/src/TreeView/TreeView.cs:242-243 | A header matching a longer search text matches each prefix of it, no later |
| TextSearch.Fold | UIFramework/src/TreeView/TreeView.cs:243 | Case folding maps upper-case letters to lower case and keeps every other character |
| TreeNodes.TreeNode.constructor | UIFramework/src/TreeView/TreeNode.cs:155-157 | A new node has no header, parent or children, has no checkbox, no rename or drag permission and no pending rename, has `IsChecked` true by default, is neither selected nor expanded, and has index 0 and raised no notification |
| TreeNodes.TreeNode.Named | UIFramework/src/TreeView/TreeNode.cs:159-162 | The same with the header set, and no header-change notification observed |
| TreeNodes.TreeNode.Header | UIFramework/src/TreeView/TreeNode.cs:30 | `<NULL>` without a stored header, the stored text otherwise |
| TreeNodes.TreeNode.SetHeader | UIFramework/src/TreeView/TreeNode.cs:31-37 | An equal value changes nothing and raises nothing. A different one is stored and raises `OnHeaderChanged` once |
| TreeNodes.TreeNode.SetSelected | UIFramework/src/TreeView/TreeNode.cs:107-114 | The value is stored and `OnSelected` is raised only when it changes |
| TreeNodes.TreeNode.SetExpanded | UIFramework/src/TreeView/TreeNode.cs:88-93 | The value is stored |
| TreeNodes.TreeNode.SetChecked | UIFramework/src/TreeView/TreeNode.cs:125-132 | The node and every descendant report the new value; the node raises `OnChecked` once |
| TreeNodes.TreeNode.Reindex | UIFramework/src/TreeView/TreeNode.cs:240-244 | Every child's index points at its position. With no child listed twice it is exactly its position, and otherwise at its last occurrence |
| TreeNodes.TreeNode.AddChild | UIFramework/src/TreeView/TreeNode.cs:167-171 | The child's parent is this node, the child becomes the last child at index equal to the old count, every index points at its child, and the node stays a well-formed tree |
| TreeNodes.TreeNode.Attach | UIFramework/src/TreeView/TreeNode.cs:170 | The child is appended and the node stays a well-formed tree |
| TreeNodes.TreeNode.ExpandParent | UIFramework/src/TreeView/TreeNode.cs:176-183 | Every ancestor ends up expanded and the node's own expansion is unchanged |
| TreeNodes.TreeNode.Sort | UIFramework/src/TreeView/TreeNode.cs:188 | The children are a permutation of the old ones. Without repeats they are in ascending header order, with each index equal to its position |
| TreeNodes.TreeNode.SortByDescending | UIFramework/src/TreeView/TreeNode.cs:193 | The same in descending header order |
| TreeNodes.TreeNode.Reorder | UIFramework/src/TreeView/TreeNode.cs:234-238 | Moving each listed node in turn to its position yields a permutation of the children, equal to the requested list when no child repeats |
| TreeNodes.TreeNode.MoveChild | UIFramework/src/TreeView/TreeNode.cs:236 | The children become `Move` of the old ones, the same set of nodes, reindexed |
| TreeNodes.SortedByHeader | UIFramework/src/TreeView/TreeNode.cs:188-193 | A permutation of the children in which no later header precedes an earlier one |
| HeaderOrder.SortBy | UIFramework/src/TreeView/TreeNode.cs:188-193 | `OrderBy` / `OrderByDescending` on the header: a permutation sorted by key |
| HeaderOrder.Insert | UIFramework/src/TreeView/TreeNode.cs:188-193 | Inserting one element keeps the elements as a multiset and keeps a sorted run sorted |
| HeaderOrder.LessIrreflexive | UIFramework/src/TreeView/TreeNode.cs:188 | No header sorts before itself |
| HeaderOrder.LessTotal | UIFramework/src/TreeView/TreeNode.cs:188 | Any two different headers are ordered one way or the other |
| HeaderOrder.LessTransitive | UIFramework/src/TreeView/TreeNode.cs:188 | The header order is transitive |
| HeaderOrder.LessAsymmetric | UIFramework/src/TreeView/TreeNode.cs:188 | The header order is asymmetric |
| TreeNodes.NotOwnAncestor | UIFramework/src/TreeView/TreeNode.cs:176-183 | In the model, where every parent link is set by `AddChild` on an acyclic tree, no node is among its own ancestors, so the modelled `ExpandParent` ends. The source makes no such check (see "Left out") |
| Seqs.IndexOf | UIFramework/src/TreeView/TreeNode.cs:236 | The first position of the item, or -1 exactly when absent |
| Seqs.RemoveFirst | UIFramework/src/TreeView/TreeView.cs:98 | `List.Remove` drops the first occurrence, and leaves a list without the item as it is |
| Seqs.Move | UIFramework/src/TreeView/TreeNode.cs:236 | `Move` puts the item from `from` at `to`, keeps the elements as a multiset and leaves the prefix before `to` alone when moving left |
| SelectionBoxes.SelectionBox.constructor | UIFramework/src/Tools/SelectionBox.cs:23-37 | A new box is enabled and idle |
| SelectionBoxes.Span | UIFramework/src/Tools/SelectionBox.cs:61-67 | The rectangle has min ≤ max on both axes, contains both drag points, and each corner coordinate is one of theirs |
| SelectionBoxes.Inputs | UIFramework/src/Tools/SelectionBox.cs:39-75 | A click on an idle enabled box starts at the mouse with start = end, and a click on an active box does not restart it. `OnSelectionStart` fires exactly on the drag frame where the end first leaves the start. `OnSelectionApplied` fires exactly when the button is up or released on an active (or just started) box, which then ends idle. The box state stays consistent |
| SelectionBoxes.StartRaisedOnce | UIFramework/src/Tools/SelectionBox.cs:53-58 | `OnSelectionStart` is not raised again on a later frame of the same drag |
| SelectionBoxes.SelectionBox.HandleInputs | UIFramework/src/Tools/SelectionBox.cs:39-75 | The box's fields and both events are those of `Inputs` |
| SelectionBoxes.Cleared | UIFramework/src/Tools/SelectionBox.cs:80-90 | Reset leaves an idle box alone and returns an active one to the idle state |
| SelectionBoxes.ClearedIdempotent | UIFramework/src/Tools/SelectionBox.cs:80-90 | Resetting twice is resetting once |
| SelectionBoxes.SelectionBox.Reset | UIFramework/src/Tools/SelectionBox.cs:80-90 | The fields become `Cleared` of the old ones: list cleared, points zeroed, no rectangle, inactive |
| SelectionBoxes.SelectionBox.CheckFrameSelection | UIFramework/src/Tools/SelectionBox.cs:96-127 | Nothing happens unless the box is active with a rectangle and start ≠ end. Then the element is tracked exactly when it overlaps. An element entering is appended and selected (flipped with ctrl), one leaving is removed and deselected (flipped), and an unchanged status changes nothing |
| SelectionBoxes.SelectionBox.Render | UIFramework/src/Tools/SelectionBox.cs:129-136 | A disabled active box is reset and reads no input; otherwise one frame of `Inputs` runs |
| Geometry.OverlapsSymmetric | UIFramework/src/Tools/BoundingBox2D.cs:30-36 | `a.Overlaps(b) == b.Overlaps(a)` |
| Geometry.OverlapsIffInteriorsMeet | UIFramework/src/Tools/BoundingBox2D.cs:30-36 | For boxes of positive area, overlapping is exactly sharing an interior point |
| Geometry.TouchingDoNotOverlap | UIFramework/src/Tools/BoundingBox2D.cs:32-35 | Boxes that only share an edge do not overlap |
| Geometry.SelfOverlap | UIFramework/src/Tools/BoundingBox2D.cs:32-35 | A box overlaps itself exactly when min < max strictly on both axes |
| Geometry.DisjointRangesDoNotOverlap | UIFramework/src/Tools/BoundingBox2D.cs:32-35 | Disjoint x-ranges or disjoint y-ranges mean no overlap |
| FileFilters.FromExtension | UIFramework/src/Dialogs/FileDialog/FileFilter.cs:21-24 | The extension is kept as given and there is no description |
| FileFilters.FromExtensionAndInfo | UIFramework/src/Dialogs/FileDialog/FileFilter.cs:26-30 | Every `*` is removed from the extension and the description kept. A null extension fails |
| FileFilters.RemoveAll | UIFramework/src/Dialogs/FileDialog/FileFilter.cs:28 | `Replace("*", "")` leaves no `*` and keeps every other character as often as before |
| FileFilters.RemoveAllAppend | UIFramework/src/Dialogs/FileDialog/FileFilter.cs:28 | Removal works piecewise, so the kept characters keep their order |
| FileFilters.SegmentsSnoc | UIFramework/src/Dialogs/FileDialog/FileFilter.cs:35-38 | Each filter appends its own segment after the earlier ones, in input order |
| FileFilters.CreateFilter | UIFramework/src/Dialogs/FileDialog/FileFilter.cs:32-42 | The segments `{desc} (*{ext})|*{ext}|` in input order, null rendering empty, then the catch-all entry exactly when `filterAll`, which defaults to true. No filters and no catch-all give the empty string |
| FileFilters.SplitSegments | UIFramework/src/Dialogs/FileDialog/FileFilter.cs:35-38 | Splitting the segments on `|` gives back each filter's label and pattern in order, when no field holds a `|` |
| FileFilters.SplitAllFiles | UIFramework/src/Dialogs/FileDialog/FileFilter.cs:40 | The catch-all entry is one label and one pattern |
| FileFilters.SplitCreateFilter | UIFramework/src/Dialogs/FileDialog/FileFilter.cs:32-42 | A dialog splitting the result on `|` reads the filters' labels and patterns in order, then the catch-all pair, or one empty field after the final bar |

## Left out

- Drawing is not modelled. This covers ImGui layout, styles, icons, columns, IDs, the search box widget, context menus (`HandleContextMenus`, `DrawRightClickMenu`), `RenderOverride`, `IconDrawer`, `PrepareNodeFlags` and `TryDrawNodeIcon`. Their outcomes enter as parameters.
- `RenderNode` is split into its steps (`HoverRow`, `CheckFrameSelection`, `HandleDragDrop`, `HandleCheckbox`, `FocusRow`, `HandleRenaming` / `DrawRenamingNode`, `ResolveClick`) rather than one method. Two things are left to the caller:
  - the guard at TreeView.cs:383 (selected, rename-capable, box idle);
  - the hit test that computes `initiateRename` at TreeView.cs:336-343.
- In the draw walk, `DrawTree` is stated as the reconciliation and the list of rows drawn. The per-row steps above are separate methods.
- `Render` is not one method.
  - Its scroll step is `SyncScroll`, its node walk `DrawTree`, its box step `ApplySelectionBox` and its flag clearing `EndFrame`.
  - Two box-enable changes are not modelled, because they depend on ImGui window state: the re-enabling at TreeView.cs:168 and the disabling when any item is hovered at TreeView.cs:193-194.
- `TreeView.cs:288-291`: the expansion reported by `TreeNodeEx` is not modelled. Expansion changes only through `SetExpanded` and `ExpandParent`.
- The drag payload (`GCHandle` pinning, `SetDragDropPayload`) is unmanaged interop; only `dragDroppedNode` is kept.
- The `InputText` length limits (200 for the search box, 512 for the rename box) are not modelled. Text arrives already typed.
- Node IDs from a static `Random` are not modelled. Nodes are compared by identity.
- Event handlers are not arbitrary callbacks. Notifications are logs of senders or counters, and the hooks `OnBeforeExpand`, `OnAfterCollapse` and `OnDoubleClicked` do nothing.
- Floating point is not modelled. Coordinates, scroll offsets and times are exact reals, and the 0.5 delay is the real 0.5.
- `HeaderOrder.SortBy`: headers are compared ordinally, character by character, whereas `OrderBy` on strings uses the culture-aware default comparer. Culture rules are outside the model.
- `TextSearch.Fold`: case folding covers the ASCII letters only. Full Unicode case mapping is outside the model.
- `TreeNodes.TreeNode.AddChild`: the source does not check for cycles, so `a.AddChild(a)` or adding an ancestor makes `ExpandParent` (TreeNode.cs:176-183), the `IsChecked` cascade (TreeNode.cs:122-132) and the draw walk recurse without end. The model requires the child's subtree not to hold the node (`this !in child.repr`) and `ExpandParent` requires a finite parent chain, so it covers acyclic trees only.
- `TreeNodes.TreeNode.AddChild`: only the node it is called on is re-established as a well-formed tree. The ghost footprints of its ancestors are not extended.
- `TreeNodes.TreeNode.Sort`: the sorted order is stated only when no child is listed twice. A repeated child makes `IndexOf` find its first copy. The stability of `OrderBy` among equal headers is not stated either.
- `TreeNodes.TreeNode.SortByDescending`: the same restriction as `Sort`.
- `TreeNodes.TreeNode.Reorder`: the same restriction as `Sort`.
- `TreeNodes.TreeNode.SetChecked`: the `OnChecked` counts of the descendants are not stated, only the node's own count.
- `TreeViews.TreeView.HandleCheckbox`: the nodes' own `OnChecked` counts are not stated.
- `TreeViews.TreeView.ScrollToSelected`: the offset is not stated for a target the search hides. In that case the walk skips the target's subtree and goes on.
- `TreeViews.TreeView.ClickSelect`: the `OnSelectionChanged` log is stated for a plain click only. It is not stated for ctrl and shift clicks, and the `OnSelected` counts of range-selected nodes are not stated.
- `TreeViews.TreeView.FocusSelect`: the `OnSelectionChanged` log is stated without modifiers only.
- `TreeViews.TreeView.ResolveClick`: the flags set by a shift range and the logs of ctrl and shift clicks are not restated here; `ClickSelect` and `SelectNodeRange` state them.
- `TreeViews.TreeView.DrawTree`: the `OnSelectionChanged` log is stated only to grow. The individual reconciliation notifications are not listed.
- `FileFilters.CreateFilter`: a null `filters` array or a null element throws a `NullReferenceException` (FileFilter.cs:35, 37). The model's sequences and datatypes cannot be null.
- `TreeViews.TreeView.AddSelection`: a null node throws at TreeView.cs:88. The model's node references cannot be null.
- `Outline.RangeWalkSparesPrefix`: it assumes a pre-order without repeats, because a node shared by two parents can be met both before and after the first end.
