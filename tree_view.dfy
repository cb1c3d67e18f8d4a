/** `TreeView`: the outliner. It owns the root nodes, keeps the list of
    selected nodes in step with the nodes' own `IsSelected` flags, filters
    the nodes by a search text, resolves clicks (plain, ctrl and shift),
    drives the delayed rename, fans a checkbox out to the selection, scrolls
    to a node and wires the selection box to the selection. Everything
    ImGui reports (clicks, hovering, focus, the clock, the line height) is a
    parameter; notifications are logged or counted. */
module TreeViews {
  import opened Wrappers
  import Seqs
  import opened Geometry
  import opened TreeNodes
  import opened Outline
  import TextSearch
  import opened SelectionBoxes

  /** The sender passed with `OnSelectionChanged`: the node added or
      removed, `null` (from `DeselectAll`), or the view itself (from the
      range walk). */
  datatype Sender = NodeSender(node: TreeNode) | NoSender | ViewSender

  /** `RENAME_DELAY_TIME`: seconds between the arming click and the rename. */
  const RenameDelay: real := 0.5

  /** `k` copies of the view as sender. */
  function ViewEvents(k: nat): (r: seq<Sender>)
    ensures |r| == k && forall j :: 0 <= j < k ==> r[j] == ViewSender
  {
    if k == 0 then [] else ViewEvents(k - 1) + [ViewSender]
  }

  /** Raising `k` and then `l` view events raises `k + l`. */
  lemma ViewEventsAdd(k: nat, l: nat)
    ensures ViewEvents(k) + ViewEvents(l) == ViewEvents(k + l)
  {
  }

  class TreeView {
    /** `Nodes`, the roots. */
    var nodes: seq<TreeNode>
    /** `SelectedNodes`. */
    var selectedNodes: seq<TreeNode>
    var isFocused: bool
    var useSelectionBox: bool
    var scrollX: real
    var scrollY: real
    /** `UpdateFlags` holds `SCROLL`. */
    var scrollRequested: bool
    var isSearch: bool
    var searchText: string
    var renameNode: TreeNode?
    var isNameEditing: bool
    var renameText: string
    /** Zero while no rename click is pending. */
    var renameClickTime: real
    var dragDroppedNode: TreeNode?
    /** The anchor of a shift-click range. */
    var previousSelectedNode: TreeNode?
    const selectionBox: SelectionBox
    var previousFocus: bool
    var focusedNode: TreeNode?

    /** Senders of `OnSelectionChanged`, the number of `OnNodeChecked`
        notifications and the nodes passed to `OnNodeLeftClicked`. */
    var selectionChanged: seq<Sender>
    var nodeChecked: nat
    var leftClicks: seq<TreeNode>

    /** Every node the view reaches: the roots' and the selected nodes'
        subtrees. */
    ghost var forest: set<TreeNode>

    /** The selection list holds each node once, and roots and selected
        nodes are well-formed trees inside `forest`. The selection box keeps
        its own invariant, `selectionBox.Valid()`. */
    ghost predicate Valid()
      reads this`nodes, this`selectedNodes, this`forest, forest`repr, forest`children
    {
      Seqs.NoDuplicates(selectedNodes)
      && Within(nodes, forest)
      && Within(selectedNodes, forest)
    }

    /** `new TreeView()`: no nodes, nothing selected, no search, the
        selection box enabled and idle. */
    constructor ()
      ensures Valid() && selectionBox.Valid() && fresh(selectionBox)
      ensures nodes == [] && selectedNodes == [] && forest == {}
      ensures !isSearch && searchText == "" && useSelectionBox
      ensures selectionBox.enabled && selectionBox.State() == Idle
      ensures renameNode == null && !isNameEditing && renameText == "" && renameClickTime == 0.0
      ensures previousSelectedNode == null && focusedNode == null && dragDroppedNode == null
      ensures selectionChanged == [] && nodeChecked == 0 && leftClicks == []
      ensures scrollX == 0.0 && scrollY == 0.0 && !scrollRequested
    {
      nodes, selectedNodes := [], [];
      isFocused, useSelectionBox := false, true;
      scrollX, scrollY, scrollRequested := 0.0, 0.0, false;
      isSearch, searchText := false, "";
      renameNode, isNameEditing, renameText, renameClickTime := null, false, "", 0.0;
      dragDroppedNode, previousSelectedNode, focusedNode := null, null, null;
      selectionBox := new SelectionBox();
      previousFocus := false;
      selectionChanged, nodeChecked, leftClicks := [], 0, [];
      forest := {};
    }

    /** `AddSelection`: a node not yet listed is flagged selected, appended
        and announced; a listed one changes nothing. */
    method AddSelection(node: TreeNode)
      requires Valid() && node.Valid()
      modifies this`selectedNodes, this`selectionChanged, this`forest, node`isSelected, node`selectedEvents
      ensures Valid() && forest == old(forest) + node.repr
      ensures node in old(selectedNodes) ==>
                selectedNodes == old(selectedNodes) && selectionChanged == old(selectionChanged)
                && node.isSelected == old(node.isSelected) && node.selectedEvents == old(node.selectedEvents)
      ensures node !in old(selectedNodes) ==>
                selectedNodes == old(selectedNodes) + [node] && node.isSelected
                && selectionChanged == old(selectionChanged) + [NodeSender(node)]
                && node.selectedEvents == old(node.selectedEvents) + (if old(node.isSelected) then 0 else 1)
    {
      WithinGrow(nodes, forest, node);
      WithinGrow(selectedNodes, forest, node);
      forest := forest + node.repr;
      if node in selectedNodes {
        return;
      }
      node.SetSelected(true);
      Seqs.AppendFresh(selectedNodes, node);
      selectedNodes := selectedNodes + [node];
      selectionChanged := selectionChanged + [NodeSender(node)];
    }

    /** `RemoveSelection`: a listed node is flagged unselected, removed and
        announced; an unlisted one changes nothing. */
    method RemoveSelection(node: TreeNode)
      requires Valid()
      modifies this`selectedNodes, this`selectionChanged, node`isSelected, node`selectedEvents
      ensures Valid() && node !in selectedNodes
      ensures node !in old(selectedNodes) ==>
                selectedNodes == old(selectedNodes) && selectionChanged == old(selectionChanged)
                && node.isSelected == old(node.isSelected) && node.selectedEvents == old(node.selectedEvents)
      ensures node in old(selectedNodes) ==>
                selectedNodes == Seqs.RemoveFirst(old(selectedNodes), node) && !node.isSelected
                && selectionChanged == old(selectionChanged) + [NodeSender(node)]
                && node.selectedEvents == old(node.selectedEvents) + (if old(node.isSelected) then 1 else 0)
      ensures forall m :: m != node ==> (m in selectedNodes <==> m in old(selectedNodes))
    {
      Seqs.RemoveFirstNoDuplicates(selectedNodes, node);
      if node !in selectedNodes {
        return;
      }
      node.SetSelected(false);
      selectedNodes := Seqs.RemoveFirst(selectedNodes, node);
      selectionChanged := selectionChanged + [NodeSender(node)];
    }

    /** `DeselectAll`: every listed node is flagged unselected and removed,
        one at a time, then a single `null`-sender notification follows. */
    method DeselectAll()
      requires Valid()
      modifies this`selectedNodes, this`selectionChanged, forest`isSelected, forest`selectedEvents
      ensures Valid() && selectedNodes == []
      ensures selectionChanged == old(selectionChanged) + [NoSender]
      ensures forall m :: m in old(selectedNodes) ==>
                !m.isSelected && m.selectedEvents == old(m.selectedEvents) + (if old(m.isSelected) then 1 else 0)
      ensures forall m :: m in forest && m !in old(selectedNodes) ==>
                m.isSelected == old(m.isSelected) && m.selectedEvents == old(m.selectedEvents)
    {
      var selected := selectedNodes;
      var i := 0;
      while i < |selected|
        invariant 0 <= i <= |selected| && selectedNodes == selected[i..]
        invariant selectionChanged == old(selectionChanged)
        invariant forall m :: m in forest ==>
                    m.isSelected == (old(m.isSelected) && m !in selected[..i])
                    && m.selectedEvents == old(m.selectedEvents) + (if old(m.isSelected) && m in selected[..i] then 1 else 0)
      {
        var node := selected[i];
        assert node !in selected[..i];
        node.SetSelected(false);
        Seqs.RemoveFirstHead(selectedNodes);
        selectedNodes := Seqs.RemoveFirst(selectedNodes, node);
        assert selected[..i + 1] == selected[..i] + [node];
        i := i + 1;
      }
      assert selected[..i] == selected;
      selectionChanged := selectionChanged + [NoSender];
    }

    /** The handler the constructor registers on the box's
        `OnSelectionStart`: unless ctrl is held, the selection is dropped
        as a drag begins. */
    method SelectionStarted(ctrl: bool)
      requires Valid()
      modifies this`selectedNodes, this`selectionChanged, forest`isSelected, forest`selectedEvents
      ensures Valid()
      ensures ctrl ==>
                selectedNodes == old(selectedNodes) && selectionChanged == old(selectionChanged)
                && forall m :: m in forest ==> m.isSelected == old(m.isSelected) && m.selectedEvents == old(m.selectedEvents)
      ensures !ctrl ==>
                selectedNodes == [] && selectionChanged == old(selectionChanged) + [NoSender]
                && (forall m :: m in old(selectedNodes) ==>
                      !m.isSelected && m.selectedEvents == old(m.selectedEvents) + (if old(m.isSelected) then 1 else 0))
                && (forall m :: m in forest && m !in old(selectedNodes) ==>
                      m.isSelected == old(m.isSelected) && m.selectedEvents == old(m.selectedEvents))
    {
      if !ctrl {
        DeselectAll();
      }
    }

    /** The reset inside click resolution: every listed node is flagged
        unselected and the list is cleared, without a notification. */
    method ClearSelection()
      requires Valid()
      modifies this`selectedNodes, forest`isSelected, forest`selectedEvents
      ensures Valid() && selectedNodes == []
      ensures forall m :: m in old(selectedNodes) ==>
                !m.isSelected && m.selectedEvents == old(m.selectedEvents) + (if old(m.isSelected) then 1 else 0)
      ensures forall m :: m in forest && m !in old(selectedNodes) ==>
                m.isSelected == old(m.isSelected) && m.selectedEvents == old(m.selectedEvents)
    {
      var i := 0;
      while i < |selectedNodes|
        invariant 0 <= i <= |selectedNodes|
        invariant selectedNodes == old(selectedNodes)
        invariant forall m :: m in forest ==>
                    m.isSelected == (old(m.isSelected) && m !in selectedNodes[..i])
                    && m.selectedEvents == old(m.selectedEvents) + (if old(m.isSelected) && m in selectedNodes[..i] then 1 else 0)
      {
        assert selectedNodes[i] !in selectedNodes[..i];
        selectedNodes[i].SetSelected(false);
        assert selectedNodes[..i + 1] == selectedNodes[..i] + [selectedNodes[i]];
        i := i + 1;
      }
      assert selectedNodes[..i] == selectedNodes;
      selectedNodes := [];
    }

    /** The first half of `DrawNode`: a flagged node missing from the list
        is added, a listed node no longer flagged is removed. Stated against
        the walk, this is the node's own step of `ReconciledAll`, and what
        lies below the node is left as it was. */
    method Reconcile(node: TreeNode, ghost flagged: set<TreeNode>)
      requires Valid() && node.Valid() && node.repr <= forest
      requires node.isSelected <==> node in flagged
      modifies this`selectedNodes, this`selectionChanged, this`forest, node`isSelected, node`selectedEvents
      ensures Valid() && forest == old(forest)
      ensures selectedNodes == Reconciled(old(selectedNodes), node, node.isSelected)
      ensures node.isSelected == old(node.isSelected) && node.selectedEvents == old(node.selectedEvents)
      ensures old(selectionChanged) <= selectionChanged
      ensures Below(node, isSearch) == old(Below(node, isSearch))
      ensures ReconciledAll(selectedNodes, Below(node, isSearch), flagged)
              == ReconciledAll(old(selectedNodes), old(Order(node, isSearch)), flagged)
    {
      ghost var below := Below(node, isSearch);
      ReconciledAllCons(selectedNodes, node, below, flagged);
      if node.isSelected && node !in selectedNodes {
        AddSelection(node);
      }
      if !node.isSelected && node in selectedNodes {
        RemoveSelection(node);
      }
      assert Below(node, isSearch) == below;
    }

    /** `DrawNode` without the drawing: the list is brought in line with the
        node's flag, the node is drawn when visible, and its children follow
        during a search or when it is expanded. Returns the nodes drawn, in
        order. No flag changes; `flagged` names the flagged nodes of the
        forest and `visible` the ones the search filter shows. */
    method DrawNode(node: TreeNode, ghost flagged: set<TreeNode>, ghost visible: set<TreeNode>) returns (rendered: seq<TreeNode>)
      requires Valid() && node.Valid() && node.repr <= forest
      requires forall m :: m in forest ==> (m.isSelected <==> m in flagged)
      requires forall m :: m in forest ==> (Visible(m, isSearch, searchText) <==> m in visible)
      modifies this`selectedNodes, this`selectionChanged, this`forest, forest`isSelected, forest`selectedEvents
      decreases node.repr, 1
      ensures Valid() && forest == old(forest)
      ensures forall m :: m in forest ==> m.isSelected == old(m.isSelected) && m.selectedEvents == old(m.selectedEvents)
      ensures selectedNodes == ReconciledAll(old(selectedNodes), old(Order(node, isSearch)), flagged)
      ensures rendered == Kept(old(Order(node, isSearch)), visible)
      ensures old(selectionChanged) <= selectionChanged
    {
      KeptCons(node, Below(node, isSearch), visible);
      Reconcile(node, flagged);
      rendered := if Visible(node, isSearch, searchText) then [node] else [];
      var r := DrawBelow(node, flagged, visible);
      rendered := rendered + r;
    }

    /** The node walk of `Render`: every root is drawn in turn. Afterwards
        each node the walk met is listed exactly when it is flagged, any
        other node is listed as before, no flag has changed, and the nodes
        drawn are the visible nodes of the walk, in order. */
    method DrawTree() returns (rendered: seq<TreeNode>)
      requires Valid()
      modifies this`selectedNodes, this`selectionChanged, this`forest, forest`isSelected, forest`selectedEvents
      ensures Valid() && forest == old(forest)
      ensures forall m :: m in forest ==> m.isSelected == old(m.isSelected) && m.selectedEvents == old(m.selectedEvents)
      ensures forall m :: m in old(OrderList(nodes, 0, isSearch, forest)) ==> (m in selectedNodes <==> m.isSelected)
      ensures forall m :: m !in old(OrderList(nodes, 0, isSearch, forest)) ==> (m in selectedNodes <==> m in old(selectedNodes))
      ensures rendered == old(Shown(OrderList(nodes, 0, isSearch, forest), isSearch, searchText))
      ensures old(selectionChanged) <= selectionChanged
    {
      ghost var flagged := set m | m in forest && m.isSelected;
      ghost var visible := set m | m in forest && Visible(m, isSearch, searchText);
      ghost var o := OrderList(nodes, 0, isSearch, forest);
      ghost var sel := selectedNodes;
      OrderListIn(nodes, 0, isSearch, forest);
      ShownKept(o, isSearch, searchText, visible);
      rendered := DrawList(nodes, forest, flagged, visible);
      forall m ensures (m in o ==> (m in selectedNodes <==> m.isSelected)) && (m !in o ==> (m in selectedNodes <==> m in sel)) {
        ReconciledAllAgrees(sel, o, flagged, m);
      }
    }

    /** The second half of `DrawNode`: the children, during a search or when
        the node is expanded. */
    method DrawBelow(node: TreeNode, ghost flagged: set<TreeNode>, ghost visible: set<TreeNode>) returns (rendered: seq<TreeNode>)
      requires Valid() && node.Valid() && node.repr <= forest
      requires forall m :: m in forest ==> (m.isSelected <==> m in flagged)
      requires forall m :: m in forest ==> (Visible(m, isSearch, searchText) <==> m in visible)
      modifies this`selectedNodes, this`selectionChanged, this`forest, forest`isSelected, forest`selectedEvents
      decreases node.repr, 0
      ensures Valid() && forest == old(forest)
      ensures forall m :: m in forest ==> m.isSelected == old(m.isSelected) && m.selectedEvents == old(m.selectedEvents)
      ensures selectedNodes == ReconciledAll(old(selectedNodes), old(Below(node, isSearch)), flagged)
      ensures rendered == Kept(old(Below(node, isSearch)), visible)
      ensures old(selectionChanged) <= selectionChanged
    {
      ChildrenWithin(node);
      rendered := [];
      if isSearch || node.isExpanded {
        rendered := DrawList(node.children, node.repr - {node}, flagged, visible);
      }
    }

    /** The `foreach` over a node's children, or over the roots. */
    method DrawList(s: seq<TreeNode>, ghost F: set<TreeNode>, ghost flagged: set<TreeNode>, ghost visible: set<TreeNode>)
      returns (rendered: seq<TreeNode>)
      requires Valid() && Within(s, F) && F <= forest
      requires forall m :: m in forest ==> (m.isSelected <==> m in flagged)
      requires forall m :: m in forest ==> (Visible(m, isSearch, searchText) <==> m in visible)
      modifies this`selectedNodes, this`selectionChanged, this`forest, forest`isSelected, forest`selectedEvents
      decreases F, 3
      ensures Valid() && forest == old(forest)
      ensures forall m :: m in forest ==> m.isSelected == old(m.isSelected) && m.selectedEvents == old(m.selectedEvents)
      ensures selectedNodes == ReconciledAll(old(selectedNodes), old(OrderList(s, 0, isSearch, F)), flagged)
      ensures rendered == Kept(old(OrderList(s, 0, isSearch, F)), visible)
      ensures old(selectionChanged) <= selectionChanged
    {
      rendered := [];
      var i := 0;
      while i < |s|
        invariant 0 <= i <= |s| && Valid() && Within(s, F) && forest == old(forest)
        invariant forall m :: m in forest ==> m.isSelected == old(m.isSelected) && m.selectedEvents == old(m.selectedEvents)
        invariant ReconciledAll(selectedNodes, OrderList(s, i, isSearch, F), flagged)
                  == ReconciledAll(old(selectedNodes), old(OrderList(s, 0, isSearch, F)), flagged)
        invariant rendered + Kept(OrderList(s, i, isSearch, F), visible) == Kept(old(OrderList(s, 0, isSearch, F)), visible)
        invariant old(selectionChanged) <= selectionChanged
      {
        ghost var todo := Kept(OrderList(s, i, isSearch, F), visible);
        var r := DrawChild(s, i, F, flagged, visible);
        assert (rendered + r) + Kept(OrderList(s, i + 1, isSearch, F), visible) == rendered + todo;
        rendered := rendered + r;
        i := i + 1;
      }
      assert rendered + [] == rendered;
    }

    /** One pass of that loop: the child at `i` and its subtree. */
    method DrawChild(s: seq<TreeNode>, i: nat, ghost F: set<TreeNode>, ghost flagged: set<TreeNode>, ghost visible: set<TreeNode>)
      returns (rendered: seq<TreeNode>)
      requires Valid() && Within(s, F) && F <= forest && i < |s|
      requires forall m :: m in forest ==> (m.isSelected <==> m in flagged)
      requires forall m :: m in forest ==> (Visible(m, isSearch, searchText) <==> m in visible)
      modifies this`selectedNodes, this`selectionChanged, this`forest, forest`isSelected, forest`selectedEvents
      decreases F, 2
      ensures Valid() && Within(s, F) && forest == old(forest)
      ensures forall m :: m in forest ==> m.isSelected == old(m.isSelected) && m.selectedEvents == old(m.selectedEvents)
      ensures OrderList(s, i + 1, isSearch, F) == old(OrderList(s, i + 1, isSearch, F))
      ensures ReconciledAll(selectedNodes, OrderList(s, i + 1, isSearch, F), flagged)
              == ReconciledAll(old(selectedNodes), old(OrderList(s, i, isSearch, F)), flagged)
      ensures rendered + Kept(OrderList(s, i + 1, isSearch, F), visible) == Kept(old(OrderList(s, i, isSearch, F)), visible)
      ensures old(selectionChanged) <= selectionChanged
    {
      ghost var o := Order(s[i], isSearch);
      ghost var rest := OrderList(s, i + 1, isSearch, F);
      assert OrderList(s, i, isSearch, F) == o + rest;
      ReconciledAllAppend(selectedNodes, o, rest, flagged);
      KeptAppend(o, rest, visible);
      rendered := DrawNode(s[i], flagged, visible);
      assert OrderList(s, i + 1, isSearch, F) == rest;
    }

    /** The shift-click range selection: with an anchor other than `node`,
        the roots are walked in turn until one reports the end of the
        range. Nodes are only flagged; the list catches up on the next
        draw. */
    method SelectNodeRange(node: TreeNode)
      requires Valid()
      modifies this`selectionChanged, forest`isSelected, forest`selectedEvents
      ensures previousSelectedNode == null || previousSelectedNode == node ==>
                selectionChanged == old(selectionChanged)
                && forall m :: m in forest ==> m.isSelected == old(m.isSelected) && m.selectedEvents == old(m.selectedEvents)
      ensures previousSelectedNode != null && previousSelectedNode != node ==>
                var w := old(RangeWalk(nodes, previousSelectedNode, node, forest));
                selectionChanged == old(selectionChanged) + ViewEvents(w.fired)
                && forall m :: m in forest ==>
                     m.isSelected == (old(m.isSelected) || m in w.marked)
                     && m.selectedEvents == old(m.selectedEvents) + (if m in w.marked && !old(m.isSelected) then 1 else 0)
    {
      if previousSelectedNode == null || previousSelectedNode == node {
        return;
      }
      var stop, inRange := SelectRangeList(nodes, forest, previousSelectedNode, node, false);
    }

    /** The private `SelectNodeRange(node, selectedNode1, selectedNode2, ref
        isInRange)`: returns whether the walk stopped here, with the new
        `isInRange`. An end met in range raises one notification and stops;
        otherwise the node is flagged when in range, an end starts the range
        and an expanded node's children are walked. */
    method SelectRange(n: TreeNode, a: TreeNode?, b: TreeNode, inRange: bool) returns (stop: bool, inRangeOut: bool)
      requires n.Valid()
      modifies this`selectionChanged, n.repr`isSelected, n.repr`selectedEvents
      decreases n.repr, 1
      ensures var w := old(Walk(n, a, b, inRange));
        stop == w.stop && inRangeOut == w.inRange
        && selectionChanged == old(selectionChanged) + ViewEvents(w.fired)
        && forall m :: m in n.repr ==>
             m.isSelected == (old(m.isSelected) || m in w.marked)
             && m.selectedEvents == old(m.selectedEvents) + (if m in w.marked && !old(m.isSelected) then 1 else 0)
    {
      ghost var w := Walk(n, a, b, inRange);
      var hit := n == a || n == b;
      if hit && inRange {
        selectionChanged := selectionChanged + [ViewSender];
        assert ViewEvents(1) == [ViewSender];
        return true, true;
      }
      ghost var start := Outcome(false, inRange || hit, if inRange then {n} else {}, 0);
      ghost var F := n.repr - {n};
      ChildrenWithin(n);
      ghost var v := WalkList(n.children, 0, a, b, Outcome(false, inRange || hit, {}, 0), F);
      if n.isExpanded {
        WalkListShift(n.children, 0, a, b, start, F);
        WalkListIn(n.children, 0, a, b, Outcome(false, inRange || hit, {}, 0), F);
        assert w.marked == start.marked + v.marked && w.inRange == v.inRange && w.fired == v.fired;
      } else {
        assert w == start;
      }
      if inRange {
        n.SetSelected(true);
      }
      inRangeOut := inRange || hit;
      if n.isExpanded {
        var st;
        st, inRangeOut := SelectRangeList(n.children, F, a, b, inRangeOut);
      }
      stop := false;
    }

    /** The `foreach` over children (or roots) that breaks on the first
        `true`. */
    method SelectRangeList(s: seq<TreeNode>, ghost F: set<TreeNode>, a: TreeNode?, b: TreeNode, inRange: bool)
      returns (stop: bool, inRangeOut: bool)
      requires Within(s, F)
      modifies this`selectionChanged, F`isSelected, F`selectedEvents
      decreases F, 4
      ensures var w := old(WalkList(s, 0, a, b, Outcome(false, inRange, {}, 0), F));
        stop == w.stop && inRangeOut == w.inRange
        && selectionChanged == old(selectionChanged) + ViewEvents(w.fired)
        && forall m :: m in F ==>
             m.isSelected == (old(m.isSelected) || m in w.marked)
             && m.selectedEvents == old(m.selectedEvents) + (if m in w.marked && !old(m.isSelected) then 1 else 0)
    {
      ghost var was := map m | m in F :: m.isSelected;
      ghost var events := map m | m in F :: m.selectedEvents;
      stop, inRangeOut := SelectRangeLoop(s, F, a, b, inRange, selectionChanged, was, events);
    }

    /** The loop itself, with the flags and notification counts stated
        against `was` and `events`, their values when the loop begins. */
    method SelectRangeLoop(s: seq<TreeNode>, ghost F: set<TreeNode>, a: TreeNode?, b: TreeNode, inRange: bool,
                           ghost log: seq<Sender>, ghost was: map<TreeNode, bool>, ghost events: map<TreeNode, nat>)
      returns (stop: bool, inRangeOut: bool)
      requires Within(s, F) && selectionChanged == log && Swept(F, was, events, {})
      modifies this`selectionChanged, F`isSelected, F`selectedEvents
      decreases F, 3
      ensures var w := old(WalkList(s, 0, a, b, Outcome(false, inRange, {}, 0), F));
        stop == w.stop && inRangeOut == w.inRange
        && selectionChanged == log + ViewEvents(w.fired) && Swept(F, was, events, w.marked)
    {
      ghost var w := WalkList(s, 0, a, b, Outcome(false, inRange, {}, 0), F);
      ghost var acc := Outcome(false, inRange, {}, 0);
      stop, inRangeOut := false, inRange;
      var i := 0;
      while i < |s|
        invariant 0 <= i <= |s| && !stop && acc.marked <= F && !acc.stop && acc.inRange == inRangeOut
        invariant Within(s, F) && WalkList(s, i, a, b, acc, F) == w
        invariant selectionChanged == log + ViewEvents(acc.fired)
        invariant Swept(F, was, events, acc.marked)
      {
        ghost var pre := WalkList(s, i, a, b, acc, F);
        var st, ir, next := SelectRangeChild(s, i, F, a, b, inRangeOut, acc, log, was, events);
        assert pre == w;
        assert !st ==> WalkList(s, i + 1, a, b, next, F) == w;
        acc := next;
        inRangeOut := ir;
        if st {
          stop := true;
          break;
        }
        i := i + 1;
      }
      assert acc == w;
    }

    /** One pass of that loop: the walk of the tree at `i`, continuing the
        loop's accumulated outcome `acc` to `next`. The flags and
        notification counts are stated against `was` and `events`, the
        values they had when the loop began. */
    method SelectRangeChild(s: seq<TreeNode>, i: nat, ghost F: set<TreeNode>, a: TreeNode?, b: TreeNode, inRange: bool,
                            ghost acc: Outcome, ghost log: seq<Sender>, ghost was: map<TreeNode, bool>, ghost events: map<TreeNode, nat>)
      returns (stop: bool, inRangeOut: bool, ghost next: Outcome)
      requires Within(s, F) && i < |s| && acc.inRange == inRange && !acc.stop && acc.marked <= F
      requires selectionChanged == log + ViewEvents(acc.fired) && Swept(F, was, events, acc.marked)
      modifies this`selectionChanged, F`isSelected, F`selectedEvents
      decreases F, 2
      ensures Within(s, F) && next.stop == stop && next.inRange == inRangeOut && next.marked <= F
      ensures old(WalkList(s, i, a, b, acc, F)) == if stop then next else WalkList(s, i + 1, a, b, next, F)
      ensures selectionChanged == log + ViewEvents(next.fired)
      ensures Swept(F, was, events, next.marked)
    {
      ghost var o := Walk(s[i], a, b, inRange);
      WalkIn(s[i], a, b, inRange);
      next := Outcome(o.stop, o.inRange, acc.marked + o.marked, acc.fired + o.fired);
      ghost var rest := WalkList(s, i + 1, a, b, next, F);
      assert WalkList(s, i, a, b, acc, F) == if o.stop then next else rest;
      label before:
      stop, inRangeOut := SelectRange(s[i], a, b, inRange);
      ViewEventsAdd(acc.fired, o.fired);
      Seqs.AppendAssoc(log, ViewEvents(acc.fired), ViewEvents(o.fired));
      assert WalkList(s, i + 1, a, b, next, F) == rest;
      forall m | m in F
        ensures m.isSelected == (was[m] || m in next.marked)
        ensures m.selectedEvents == events[m] + (if m in next.marked && !was[m] then 1 else 0)
      {
        if m !in s[i].repr {
          assert m !in o.marked;
        }
      }
    }

    /** `GetNodePosition(target, parent, ref pos, itemHeight)`: whether
        `target` was met at or below `parent`, and the offset after it. A
        target the search hides is not found; every node the search shows
        before the target adds `itemHeight`. */
    method GetNodePosition(target: TreeNode, parent: TreeNode, pos: real, itemHeight: real) returns (found: bool, posOut: real)
      requires parent.Valid()
      decreases parent.repr, 1
      ensures Found(found, posOut) == Position(target, parent, pos, itemHeight, isSearch, searchText)
    {
      var hasText := HasText(parent, searchText);
      if isSearch && parent == target && !hasText {
        return false, pos;
      }
      if parent == target {
        return true, pos;
      }
      posOut := pos;
      if (isSearch && hasText) || !isSearch {
        posOut := posOut + itemHeight;
      }
      found := false;
      if parent.isExpanded {
        ChildrenWithin(parent);
        found, posOut := GetListPosition(target, parent.children, parent.repr - {parent}, posOut, itemHeight);
      }
    }

    /** The `foreach` over children (or roots) that stops on the first node
        reporting the target. */
    method GetListPosition(target: TreeNode, s: seq<TreeNode>, ghost F: set<TreeNode>, pos: real, itemHeight: real)
      returns (found: bool, posOut: real)
      requires Within(s, F)
      decreases F, 2
      ensures Found(found, posOut) == PositionList(target, s, 0, pos, itemHeight, isSearch, searchText, F)
    {
      ghost var goal := PositionList(target, s, 0, pos, itemHeight, isSearch, searchText, F);
      found, posOut := false, pos;
      var i := 0;
      while i < |s|
        invariant 0 <= i <= |s| && !found
        invariant PositionList(target, s, i, posOut, itemHeight, isSearch, searchText, F) == goal
      {
        ghost var pre := PositionList(target, s, i, posOut, itemHeight, isSearch, searchText, F);
        var f, p := GetNodePosition(target, s[i], posOut, itemHeight);
        assert pre == if f then Found(f, p) else PositionList(target, s, i + 1, p, itemHeight, isSearch, searchText, F);
        if f {
          return true, p;
        }
        posOut := p;
        i := i + 1;
      }
    }

    /** `ScrollToSelected(target)`: nothing for a missing or already
        selected target; otherwise its ancestors are expanded and the view
        scrolls to the target's row, counted in rows of the line height
        plus 3 over the expanded pre-order of the roots: one row per node
        shown before a visible target, or per node shown at all when the
        target is not listed. `chain` is the target's ancestors, nearest
        first. */
    method ScrollToSelected(target: TreeNode?, lineHeight: real, ghost chain: seq<TreeNode>)
      requires Valid()
      requires target != null ==> ParentChain(target, chain)
      modifies this`scrollY, this`scrollRequested, Seqs.Elems(chain)`isExpanded
      ensures Valid()
      ensures target == null || target in selectedNodes ==>
                scrollY == old(scrollY) && scrollRequested == old(scrollRequested)
                && forall a :: a in chain ==> a.isExpanded == old(a.isExpanded)
      ensures target != null && target !in selectedNodes ==> scrollRequested && forall a :: a in chain ==> a.isExpanded
      ensures target != null && target !in selectedNodes && target !in OrderList(nodes, 0, false, forest) ==>
                scrollY == Steps(Count(OrderList(nodes, 0, false, forest), isSearch, searchText), lineHeight + 3.0)
      ensures target != null && target !in selectedNodes && target in OrderList(nodes, 0, false, forest)
              && Visible(target, isSearch, searchText) ==>
                var o := OrderList(nodes, 0, false, forest);
                scrollY == Steps(Count(o[..Seqs.IndexOf(o, target)], isSearch, searchText), lineHeight + 3.0)
    {
      if target == null || target in selectedNodes {
        return;
      }
      ExpandAndScroll(target, lineHeight + 3.0, chain);
    }

    /** `ScrollToSelected` past its guard: the ancestors are expanded, then
        the offset of the row is taken. */
    method ExpandAndScroll(target: TreeNode, itemHeight: real, ghost chain: seq<TreeNode>)
      requires Valid() && ParentChain(target, chain)
      modifies this`scrollY, this`scrollRequested, Seqs.Elems(chain)`isExpanded
      ensures Valid() && scrollRequested && forall a :: a in chain ==> a.isExpanded
      ensures target !in OrderList(nodes, 0, false, forest) ==>
                scrollY == Steps(Count(OrderList(nodes, 0, false, forest), isSearch, searchText), itemHeight)
      ensures target in OrderList(nodes, 0, false, forest) && Visible(target, isSearch, searchText) ==>
                var o := OrderList(nodes, 0, false, forest);
                scrollY == Steps(Count(o[..Seqs.IndexOf(o, target)], isSearch, searchText), itemHeight)
    {
      target.ExpandParent(chain);
      ScrollToRow(target, itemHeight);
    }

    /** The rest of `ScrollToSelected`, once the ancestors are expanded: the
        offset walk over the roots, whose result becomes `ScrollY`. */
    method ScrollToRow(target: TreeNode, itemHeight: real)
      requires Valid()
      modifies this`scrollY, this`scrollRequested
      ensures Valid() && scrollRequested
      ensures target !in OrderList(nodes, 0, false, forest) ==>
                scrollY == Steps(Count(OrderList(nodes, 0, false, forest), isSearch, searchText), itemHeight)
      ensures target in OrderList(nodes, 0, false, forest) && Visible(target, isSearch, searchText) ==>
                var o := OrderList(nodes, 0, false, forest);
                scrollY == Steps(Count(o[..Seqs.IndexOf(o, target)], isSearch, searchText), itemHeight)
    {
      var found, pos := GetListPosition(target, nodes, forest, 0.0, itemHeight);
      label computed:
      scrollY := pos;
      scrollRequested := true;
      assert unchanged@computed(forest);
      assert PositionList(target, nodes, 0, 0.0, itemHeight, isSearch, searchText, forest) == Found(found, pos);
      PositionListFlat(target, nodes, 0, 0.0, itemHeight, isSearch, searchText, forest);
    }

    /** `DrawSearchBox` after the search box was edited: the text is taken
        and search mode is on exactly when it holds a character that is not
        white space. */
    method EditSearchText(text: string)
      modifies this`searchText, this`isSearch
      ensures searchText == text
      ensures isSearch <==> exists i :: 0 <= i < |text| && !TextSearch.IsWhiteSpace(text[i])
    {
      searchText := text;
      isSearch := !TextSearch.IsNullOrWhiteSpace(Some(text));
    }

    /** The rename fields as one value. */
    function Rename(): RenameState
      reads this`isNameEditing, this`renameNode, this`renameText, this`renameClickTime
    {
      RenameState(isNameEditing, renameNode, renameText, renameClickTime)
    }

    /** `HandleRenaming(node, leftClicked)`, with `ImGui.GetTime()` as
        `now`. */
    method HandleRenaming(node: TreeNode, leftClicked: bool, now: real)
      modifies this`isNameEditing, this`renameNode, this`renameText, this`renameClickTime
      ensures Rename() == RenameStep(old(Rename()), node, node.activateRename, node.Header(), leftClicked, now)
    {
      if node.activateRename {
        isNameEditing := true;
        renameText := node.Header();
        renameNode := node;
        renameClickTime := 0.0;
        return;
      }
      var renameStarting := renameClickTime != 0.0;
      var wasCancelled := false;
      if renameStarting && leftClicked {
        renameClickTime := 0.0;
        renameStarting := false;
        wasCancelled := true;
      }
      if renameStarting {
        var diff := now - renameClickTime;
        if diff > RenameDelay {
          isNameEditing := true;
          renameText := node.Header();
          renameNode := node;
          renameClickTime := 0.0;
        }
      }
      if leftClicked && renameClickTime == 0.0 && !wasCancelled {
        renameClickTime := now;
      }
    }

    /** The commit in `DrawRenamingNode`: the typed text becomes the header,
        `OnHeaderRenamed` is raised and editing ends. `renameNode` is left
        as it is. */
    method CommitRename(node: TreeNode)
      modifies this`isNameEditing, node`header, node`headerChanged, node`headerRenamed, node`activateRename
      ensures node.header == Some(renameText) && !node.activateRename && !isNameEditing
      ensures node.headerRenamed == old(node.headerRenamed) + 1
      ensures node.headerChanged == old(node.headerChanged) + (if old(node.header) == Some(renameText) then 0 else 1)
    {
      node.SetHeader(Some(renameText));
      node.headerRenamed := node.headerRenamed + 1;
      node.activateRename := false;
      isNameEditing := false;
    }

    /** `DrawRenamingNode` without the drawing: the rename box holds `typed`;
        Enter commits, and a click outside the box commits (again, when
        Enter was also pressed on the same frame). */
    method DrawRenamingNode(node: TreeNode, typed: string, enterPressed: bool, clickedOutside: bool)
      modifies this`renameText, this`isNameEditing, node`header, node`headerChanged, node`headerRenamed, node`activateRename
      ensures renameText == typed
      ensures enterPressed || clickedOutside ==> node.header == Some(typed) && !node.activateRename && !isNameEditing
      ensures !enterPressed && !clickedOutside ==>
                node.header == old(node.header) && node.activateRename == old(node.activateRename)
                && isNameEditing == old(isNameEditing)
      ensures node.headerRenamed == old(node.headerRenamed) + (if enterPressed then 1 else 0) + (if clickedOutside then 1 else 0)
      ensures node.headerChanged == old(node.headerChanged) + (if (enterPressed || clickedOutside) && old(node.header) != Some(typed) then 1 else 0)
    {
      renameText := typed;
      if enterPressed {
        CommitRename(node);
      }
      if clickedOutside {
        CommitRename(node);
      }
    }

    /** `HandleCheckbox` for the row of `node`: the checkbox shows the
        node's own flag, so a click sets the opposite value on every
        selected node, which cascades to their subtrees, and raises
        `OnNodeChecked` once. The clicked node changes only when it lies in
        a selected node's subtree. */
    method HandleCheckbox(node: TreeNode, clicked: bool)
      requires Valid()
      modifies this`nodeChecked, forest`isChecked, forest`checkedEvents
      ensures Valid()
      ensures !clicked ==> nodeChecked == old(nodeChecked) && forall m :: m in forest ==> m.isChecked == old(m.isChecked)
      ensures clicked ==> nodeChecked == old(nodeChecked) + 1
      ensures clicked ==> forall k, m :: 0 <= k < |selectedNodes| && m in selectedNodes[k].repr ==> m.isChecked == !old(node.isChecked)
      ensures clicked ==> forall m :: m in forest && (forall k :: 0 <= k < |selectedNodes| ==> m !in selectedNodes[k].repr) ==>
                m.isChecked == old(m.isChecked)
    {
      if !clicked {
        return;
      }
      var check := !node.isChecked;
      var i := 0;
      while i < |selectedNodes|
        invariant 0 <= i <= |selectedNodes| && Valid() && nodeChecked == old(nodeChecked)
        invariant forall k, m :: 0 <= k < i && m in selectedNodes[k].repr ==> m.isChecked == check
        invariant forall m :: m in forest && (forall k :: 0 <= k < i ==> m !in selectedNodes[k].repr) ==> m.isChecked == old(m.isChecked)
      {
        selectedNodes[i].SetChecked(check);
        forall k, m | 0 <= k <= i && m in selectedNodes[k].repr
          ensures m.isChecked == check
        {
          if m !in selectedNodes[i].repr {
            assert k < i;
          }
        }
        i := i + 1;
      }
      nodeChecked := nodeChecked + 1;
    }

    /** Keyboard focus arriving on a row makes it the focused node; the
        result says whether focus moved there on this frame. */
    method FocusRow(node: TreeNode, itemFocused: bool) returns (nodeFocused: bool)
      modifies this`focusedNode
      ensures nodeFocused <==> itemFocused && old(focusedNode) != node
      ensures focusedNode == if itemFocused then node else old(focusedNode)
    {
      nodeFocused := false;
      if itemFocused && focusedNode != node {
        focusedNode := node;
        nodeFocused := true;
      }
    }

    /** Hovering a row while the box is idle disables the box for the rest
        of the frame. */
    method HoverRow(hovered: bool)
      modifies selectionBox`enabled
      ensures selectionBox.enabled <==> old(selectionBox.enabled) && (selectionBox.isActive || !hovered)
    {
      if !selectionBox.isActive && hovered {
        selectionBox.enabled := false;
      }
    }

    /** `HandleDragDrop` without the payload: the box is disabled and the
        dragged node remembered. */
    method HandleDragDrop(node: TreeNode)
      modifies selectionBox`enabled, this`dragDroppedNode
      ensures !selectionBox.enabled && dragDroppedNode == node
    {
      selectionBox.enabled := false;
      dragDroppedNode := node;
    }

    /** The end of `Render`: with the box in use, it runs while the view
        has focus and no rename is in progress, and an active box is reset
        once focus is lost. A drag that starts runs the handler the
        constructor registered on `OnSelectionStart`, with `ctrl` as the
        ctrl key. The focus is remembered. */
    method ApplySelectionBox(hasFocus: bool, clicked: bool, down: bool, released: bool, mouse: Vec2, ctrl: bool)
      returns (started: bool, applied: bool)
      requires Valid() && selectionBox.Valid()
      modifies selectionBox`isActive, selectionBox`start, selectionBox`end, selectionBox`bounding, selectionBox`overlapped,
               this`previousFocus, this`selectedNodes, this`selectionChanged, forest`isSelected, forest`selectedEvents
      ensures Valid() && selectionBox.Valid() && previousFocus == hasFocus
      ensures useSelectionBox && !isNameEditing && hasFocus ==>
                var before := old(selectionBox.State());
                (!selectionBox.enabled && before.isActive ==> selectionBox.State() == Idle && !started && !applied)
                && (selectionBox.enabled || !before.isActive ==>
                      Step(selectionBox.State(), started, applied) == Inputs(before, selectionBox.enabled, clicked, down, released, mouse))
      ensures useSelectionBox && !hasFocus ==> selectionBox.State() == Cleared(old(selectionBox.State())) && !started && !applied
      ensures !useSelectionBox || (isNameEditing && hasFocus) ==> selectionBox.State() == old(selectionBox.State()) && !started && !applied
      ensures started && !ctrl ==>
                selectedNodes == [] && selectionChanged == old(selectionChanged) + [NoSender]
                && (forall m :: m in old(selectedNodes) ==>
                      !m.isSelected && m.selectedEvents == old(m.selectedEvents) + (if old(m.isSelected) then 1 else 0))
                && (forall m :: m in forest && m !in old(selectedNodes) ==>
                      m.isSelected == old(m.isSelected) && m.selectedEvents == old(m.selectedEvents))
      ensures !started || ctrl ==>
                selectedNodes == old(selectedNodes) && selectionChanged == old(selectionChanged)
                && forall m :: m in forest ==> m.isSelected == old(m.isSelected) && m.selectedEvents == old(m.selectedEvents)
    {
      started, applied := false, false;
      if useSelectionBox {
        if !isNameEditing && hasFocus {
          started, applied := selectionBox.Render(clicked, down, released, mouse);
        } else if selectionBox.isActive && !hasFocus {
          selectionBox.Reset();
        }
      }
      if started {
        SelectionStarted(ctrl);
      }
      previousFocus := hasFocus;
    }

    /** A click on a row that is not a ctrl-click on a flagged node: without
        ctrl or shift the old selection is cleared first; shift selects the
        range from the anchor, otherwise the node becomes the anchor; then
        the node is flagged and added. */
    method ClickSelect(node: TreeNode, ctrl: bool, shift: bool)
      requires Valid() && node.Valid()
      modifies this`selectedNodes, this`selectionChanged, this`forest, this`previousSelectedNode,
               forest`isSelected, forest`selectedEvents, node`isSelected, node`selectedEvents
      ensures Valid() && node.isSelected && node in selectedNodes
      ensures shift ==> previousSelectedNode == old(previousSelectedNode)
      ensures !shift ==> previousSelectedNode == node
      ensures !ctrl && !shift ==>
                selectedNodes == [node] && selectionChanged == old(selectionChanged) + [NodeSender(node)]
                && forall m :: m in old(forest) && m != node ==> m.isSelected == (old(m.isSelected) && m !in old(selectedNodes))
      ensures ctrl || shift ==>
                selectedNodes == old(selectedNodes) + (if node in old(selectedNodes) then [] else [node])
      ensures ctrl && !shift ==> forall m :: m in old(forest) && m != node ==> m.isSelected == old(m.isSelected)
      ensures shift && old(previousSelectedNode) != null && old(previousSelectedNode) != node ==>
                var w := old(RangeWalk(nodes, previousSelectedNode, node, forest));
                forall m :: m in old(forest) && m != node ==> m.isSelected == (old(m.isSelected) || m in w.marked)
      ensures shift && (old(previousSelectedNode) == null || old(previousSelectedNode) == node) ==>
                forall m :: m in old(forest) && m != node ==> m.isSelected == old(m.isSelected)
    {
      if !ctrl && !shift {
        ClearSelection();
      }
      if shift {
        SelectNodeRange(node);
      } else {
        previousSelectedNode := node;
      }
      FlagAndAdd(node);
    }

    /** The last step of a click: the node is flagged, then added. Nothing
        else changes. */
    method FlagAndAdd(node: TreeNode)
      requires Valid() && node.Valid()
      modifies this`selectedNodes, this`selectionChanged, this`forest, node`isSelected, node`selectedEvents
      ensures Valid() && forest == old(forest) + node.repr && node.isSelected && node in selectedNodes
      ensures selectedNodes == old(selectedNodes) + (if node in old(selectedNodes) then [] else [node])
      ensures selectionChanged == old(selectionChanged) + (if node in old(selectedNodes) then [] else [NodeSender(node)])
    {
      node.SetSelected(true);
      AddSelection(node);
    }

    /** Keyboard focus moving onto an unflagged row: without ctrl or shift
        the old selection is cleared first; then the node is added and
        flagged. The anchor stays. */
    method FocusSelect(node: TreeNode, ctrl: bool, shift: bool)
      requires Valid() && node.Valid()
      modifies this`selectedNodes, this`selectionChanged, this`forest,
               forest`isSelected, forest`selectedEvents, node`isSelected, node`selectedEvents
      ensures Valid() && node.isSelected && node in selectedNodes
      ensures !ctrl && !shift ==>
                selectedNodes == [node] && selectionChanged == old(selectionChanged) + [NodeSender(node)]
                && forall m :: m in old(forest) && m != node ==> m.isSelected == (old(m.isSelected) && m !in old(selectedNodes))
      ensures ctrl || shift ==>
                selectedNodes == old(selectedNodes) + (if node in old(selectedNodes) then [] else [node])
                && forall m :: m in old(forest) && m != node ==> m.isSelected == old(m.isSelected)
    {
      if !ctrl && !shift {
        ClearSelection();
      }
      AddSelection(node);
      node.SetSelected(true);
    }

    /** The click resolution of `RenderNode` for a row that is not being
        renamed. A ctrl-click on a flagged node removes it; otherwise a
        click that did not toggle the expander selects (`ClickSelect`), and
        keyboard focus arriving on a row that was not drawn selected selects
        too (`FocusSelect`). Then a left click on a node that ends up
        selected is announced, and so is a double click that did not
        toggle. `wasSelected` is whether the row was drawn selected. */
    method ResolveClick(node: TreeNode, leftClicked: bool, rightClicked: bool, doubleClicked: bool,
                        ctrl: bool, shift: bool, toggled: bool, nodeFocused: bool, wasSelected: bool)
      requires Valid() && node.Valid()
      modifies this`selectedNodes, this`selectionChanged, this`forest, this`previousSelectedNode, this`leftClicks,
               forest`isSelected, forest`selectedEvents, node`isSelected, node`selectedEvents, node`doubleClicks
      ensures Valid()
      ensures leftClicked && ctrl && old(node.isSelected) ==>
                !node.isSelected && node !in selectedNodes && previousSelectedNode == old(previousSelectedNode)
                && forest == old(forest)
                && selectionChanged == old(selectionChanged) + (if node in old(selectedNodes) then [NodeSender(node)] else [])
                && (forall m :: m != node ==> (m in selectedNodes <==> m in old(selectedNodes)))
                && (forall m :: m in forest && m != node ==> m.isSelected == old(m.isSelected))
      ensures !(leftClicked && ctrl && old(node.isSelected)) && (leftClicked || rightClicked) && !toggled ==>
                node.isSelected && node in selectedNodes
                && (!ctrl && !shift ==>
                      selectedNodes == [node] && previousSelectedNode == node
                      && selectionChanged == old(selectionChanged) + [NodeSender(node)]
                      && forall m :: m in old(forest) && m != node ==> m.isSelected == (old(m.isSelected) && m !in old(selectedNodes)))
                && (ctrl && !shift ==>
                      previousSelectedNode == node
                      && selectedNodes == old(selectedNodes) + (if node in old(selectedNodes) then [] else [node])
                      && forall m :: m in old(forest) && m != node ==> m.isSelected == old(m.isSelected))
                && (shift ==>
                      previousSelectedNode == old(previousSelectedNode)
                      && selectedNodes == old(selectedNodes) + (if node in old(selectedNodes) then [] else [node]))
      ensures !(leftClicked && ctrl && old(node.isSelected)) && !((leftClicked || rightClicked) && !toggled)
              && nodeFocused && !toggled && !wasSelected ==>
                node.isSelected && node in selectedNodes && previousSelectedNode == old(previousSelectedNode)
                && (!ctrl && !shift ==>
                      selectedNodes == [node]
                      && selectionChanged == old(selectionChanged) + [NodeSender(node)]
                      && forall m :: m in old(forest) && m != node ==> m.isSelected == (old(m.isSelected) && m !in old(selectedNodes)))
                && (ctrl || shift ==>
                      selectedNodes == old(selectedNodes) + (if node in old(selectedNodes) then [] else [node])
                      && forall m :: m in old(forest) && m != node ==> m.isSelected == old(m.isSelected))
      ensures !(leftClicked && ctrl && old(node.isSelected)) && !((leftClicked || rightClicked) && !toggled)
              && !(nodeFocused && !toggled && !wasSelected) ==>
                selectedNodes == old(selectedNodes) && previousSelectedNode == old(previousSelectedNode)
                && selectionChanged == old(selectionChanged) && forest == old(forest)
                && node.isSelected == old(node.isSelected)
                && forall m :: m in forest ==> m.isSelected == old(m.isSelected)
      ensures leftClicks == old(leftClicks) + (if leftClicked && node.isSelected then [node] else [])
      ensures node.doubleClicks == old(node.doubleClicks) + (if doubleClicked && !toggled && node.isSelected then 1 else 0)
    {
      if leftClicked && ctrl && node.isSelected {
        RemoveSelection(node);
        node.SetSelected(false);
      } else if (leftClicked || rightClicked) && !toggled {
        ClickSelect(node, ctrl, shift);
      } else if nodeFocused && !toggled && !wasSelected {
        FocusSelect(node, ctrl, shift);
      }
      if leftClicked && node.isSelected {
        leftClicks := leftClicks + [node];
      }
      if doubleClicked && !toggled && node.isSelected {
        node.doubleClicks := node.doubleClicks + 1;
      }
    }

    /** `UpdateScroll`: both offsets are taken and a scroll is requested. */
    method UpdateScroll(x: real, y: real)
      modifies this`scrollX, this`scrollY, this`scrollRequested
      ensures scrollX == x && scrollY == y && scrollRequested
    {
      scrollX, scrollY := x, y;
      scrollRequested := true;
    }

    /** The scroll step of `Render`, given the child window's current
        offsets: a requested scroll keeps the stored offsets, which are
        handed to the window (ImGui applies them on the next frame, clamped
        to the scroll range); otherwise the window's offsets are stored. */
    method SyncScroll(windowX: real, windowY: real)
      modifies this`scrollX, this`scrollY
      ensures scrollRequested ==> scrollX == old(scrollX) && scrollY == old(scrollY)
      ensures !scrollRequested ==> scrollX == windowX && scrollY == windowY
    {
      if !scrollRequested {
        scrollX := windowX;
        scrollY := windowY;
      }
    }

    /** The end of `Render`: the update flags are cleared, so a requested
        scroll is pushed on one frame only. */
    method EndFrame()
      modifies this`scrollRequested
      ensures !scrollRequested
    {
      scrollRequested := false;
    }
 }

  /** The rename fields: whether the header is being edited, which node,
      the text in the rename box and when the arming click happened (zero
      while disarmed). */
  datatype RenameState = RenameState(editing: bool, node: TreeNode?, text: string, clickTime: real)

  /** `HandleRenaming` on the fields `s`, for a node whose `ActivateRename`
      is `activate` and whose header is `header`: a forced rename starts
      editing at once; a click while armed disarms without re-arming;
      editing starts once more than `RenameDelay` has passed since the
      arming click; a click while disarmed arms with the current time. */
  function RenameStep(s: RenameState, node: TreeNode, activate: bool, header: string, clicked: bool, now: real): (r: RenameState)
    ensures activate ==> r == RenameState(true, node, header, 0.0)
    ensures !activate && s.clickTime != 0.0 && clicked ==> r == s.(clickTime := 0.0)
    ensures !activate && s.clickTime != 0.0 && !clicked ==>
              r == if now - s.clickTime > RenameDelay then RenameState(true, node, header, 0.0) else s
    ensures !activate && s.clickTime == 0.0 ==> r == s.(clickTime := if clicked then now else 0.0)
    ensures !activate && !s.editing && r.editing ==> s.clickTime != 0.0 && !clicked && now - s.clickTime > RenameDelay
  {
    if activate then RenameState(true, node, header, 0.0)
    else
      var cancelled := s.clickTime != 0.0 && clicked;
      var s1 := if cancelled then s.(clickTime := 0.0) else s;
      var s2 := if !cancelled && s.clickTime != 0.0 && now - s.clickTime > RenameDelay
                then RenameState(true, node, header, 0.0) else s1;
      if clicked && s2.clickTime == 0.0 && !cancelled then s2.(clickTime := now) else s2
  }

  /** Against the flags `was` and the notification counts `events` the
      nodes of `F` started from, the effect of a walk that marked `marked`:
      a marked node is flagged, with one more notification when it was not
      flagged before, and any other node is as it was. */
  ghost predicate Swept(F: set<TreeNode>, was: map<TreeNode, bool>, events: map<TreeNode, nat>, marked: set<TreeNode>)
    reads F`isSelected, F`selectedEvents
  {
    F <= was.Keys && F <= events.Keys
    && forall m :: m in F ==>
         m.isSelected == (was[m] || m in marked)
         && m.selectedEvents == events[m] + (if m in marked && !was[m] then 1 else 0)
  }

  /** One reconciliation step: a flagged node missing from the list is
      appended, a listed node without the flag is removed, otherwise the
      list is kept. */
  function Reconciled(sel: seq<TreeNode>, n: TreeNode, flag: bool): (r: seq<TreeNode>)
    ensures Seqs.NoDuplicates(sel) ==> Seqs.NoDuplicates(r) && (n in r <==> flag)
  {
    if flag && n !in sel then sel + [n]
    else if !flag && n in sel then Seqs.RemoveFirst(sel, n)
    else sel
  }

  /** Reconciling each node of a listing in turn against its flag. */
  function ReconciledAll(sel: seq<TreeNode>, o: seq<TreeNode>, flagged: set<TreeNode>): (r: seq<TreeNode>)
    ensures Seqs.NoDuplicates(sel) ==> Seqs.NoDuplicates(r)
    decreases |o|
  {
    if o == [] then sel else ReconciledAll(Reconciled(sel, o[0], o[0] in flagged), o[1..], flagged)
  }

  /** A reconciliation step leaves every other node's membership alone. */
  lemma ReconciledOthers(sel: seq<TreeNode>, n: TreeNode, flag: bool, m: TreeNode)
    requires Seqs.NoDuplicates(sel) && m != n
    ensures m in Reconciled(sel, n, flag) <==> m in sel
  {
    Seqs.RemoveFirstNoDuplicates(sel, n);
  }

  /** After reconciling a listing, a listed node is in the list exactly
      when it is flagged, and an unlisted node is in it exactly when it was
      before. */
  lemma {:induction false} ReconciledAllAgrees(sel: seq<TreeNode>, o: seq<TreeNode>, flagged: set<TreeNode>, m: TreeNode)
    requires Seqs.NoDuplicates(sel)
    ensures m in o ==> (m in ReconciledAll(sel, o, flagged) <==> m in flagged)
    ensures m !in o ==> (m in ReconciledAll(sel, o, flagged) <==> m in sel)
    decreases |o|
  {
    if o != [] {
      var next := Reconciled(sel, o[0], o[0] in flagged);
      ReconciledAllAgrees(next, o[1..], flagged, m);
      assert o == [o[0]] + o[1..];
      if m != o[0] {
        ReconciledOthers(sel, o[0], o[0] in flagged, m);
      }
    }
  }

  lemma ReconciledAllCons(sel: seq<TreeNode>, n: TreeNode, o: seq<TreeNode>, flagged: set<TreeNode>)
    ensures ReconciledAll(sel, [n] + o, flagged) == ReconciledAll(Reconciled(sel, n, n in flagged), o, flagged)
  {
    assert ([n] + o)[1..] == o;
  }

  lemma {:induction false} ReconciledAllAppend(sel: seq<TreeNode>, o: seq<TreeNode>, p: seq<TreeNode>, flagged: set<TreeNode>)
    ensures ReconciledAll(sel, o + p, flagged) == ReconciledAll(ReconciledAll(sel, o, flagged), p, flagged)
    decreases |o|
  {
    if o == [] {
      assert o + p == p;
    } else {
      assert (o + p)[0] == o[0] && (o + p)[1..] == o[1..] + p;
      ReconciledAllAppend(Reconciled(sel, o[0], o[0] in flagged), o[1..], p, flagged);
    }
  }
}
