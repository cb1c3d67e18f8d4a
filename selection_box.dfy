/** `SelectionBox`: the rubber-band rectangle dragged with the left mouse
    button over the tree. It is idle until a click, active while the button
    is held, and selects (or, with ctrl, flips) every element its rectangle
    sweeps over. Mouse buttons, the mouse position, item rectangles and the
    ctrl key are parameters. */
module SelectionBoxes {
  import opened Wrappers
  import opened Geometry
  import Seqs
  import opened TreeNodes

  /** The fields the box updates: whether it is active, where the drag
      started and where it is now, the rectangle computed on the last drag
      frame, and the elements currently under it. */
  datatype BoxState = BoxState(
    isActive: bool,
    start: Vec2,
    end: Vec2,
    bounding: Option<BoundingBox2D>,
    overlapped: seq<TreeNode>)

  /** A fresh box, and the one `Reset` leaves behind. */
  const Idle := BoxState(false, Zero, Zero, None, [])

  /** The state a box can be in: idle means fully cleared, no element is
      tracked twice, and a stored rectangle always spans the two drag
      points. */
  ghost predicate Consistent(s: BoxState) {
    Seqs.NoDuplicates(s.overlapped)
    && (!s.isActive ==> s == Idle)
    && (s.bounding.Some? ==> s.bounding.value == Span(s.start, s.end))
  }

  /** The rectangle between two drag points: the component-wise minimum and
      maximum. */
  function Span(p: Vec2, q: Vec2): (b: BoundingBox2D)
    ensures b.min.x <= b.max.x && b.min.y <= b.max.y
    ensures b.min.x <= p.x <= b.max.x && b.min.x <= q.x <= b.max.x
    ensures b.min.y <= p.y <= b.max.y && b.min.y <= q.y <= b.max.y
    ensures (b.min.x == p.x || b.min.x == q.x) && (b.max.x == p.x || b.max.x == q.x)
    ensures (b.min.y == p.y || b.min.y == q.y) && (b.max.y == p.y || b.max.y == q.y)
  {
    BoundingBox2D(Vec2(Min(p.x, q.x), Min(p.y, q.y)), Vec2(Max(p.x, q.x), Max(p.y, q.y)))
  }

  /** `Reset`: an active box is cleared, an idle one is left alone. */
  function Cleared(s: BoxState): (r: BoxState)
    ensures !r.isActive
    ensures s.isActive ==> r == Idle
    ensures !s.isActive ==> r == s
  {
    if s.isActive then Idle else s
  }

  /** Resetting twice is resetting once. */
  lemma ClearedIdempotent(s: BoxState)
    ensures Cleared(Cleared(s)) == Cleared(s)
  {
  }

  /** The state after one frame of input, and whether `OnSelectionStart`
      and `OnSelectionApplied` were raised. */
  datatype Step = Step(state: BoxState, started: bool, applied: bool)

  /** `HandleInputs`: a click on an idle, enabled box starts a drag at the
      mouse; holding the button on an active box moves the end point and
      recomputes the rectangle; a button that is up or released ends the
      drag. */
  function Inputs(s: BoxState, enabled: bool, clicked: bool, down: bool, released: bool, mouse: Vec2): (r: Step)
    ensures Consistent(s) ==> Consistent(r.state)
    ensures r.started <==> s.isActive && down && s.start == s.end && mouse != s.start
    ensures r.applied <==> (!down || released) && (s.isActive || (clicked && enabled))
    ensures r.applied ==> r.state == Cleared(r.state) && !r.state.isActive
    ensures !s.isActive && clicked && enabled && !r.applied ==> r.state.isActive && r.state.start == mouse && r.state.end == mouse
    ensures s.isActive && !r.applied ==> r.state.isActive && r.state.start == s.start
    ensures s.isActive && down && !r.applied ==> r.state.end == mouse && r.state.bounding == Some(Span(s.start, mouse))
    ensures !s.isActive && !(clicked && enabled) ==> r.state == s
  {
    var starting := clicked && !s.isActive && enabled;
    var dragging := !starting && down && s.isActive;
    var s1 :=
      if starting then s.(isActive := true, start := mouse, end := mouse)
      else if dragging then s.(end := mouse, bounding := Some(Span(s.start, mouse)))
      else s;
    var started := dragging && s.start == s.end && mouse != s.start;
    var applied := (!down || released) && s1.isActive;
    Step(if applied then Cleared(s1) else s1, started, applied)
  }

  /** `OnSelectionStart` is raised at most once per drag: on the frame where
      the end point first leaves the start point. A later frame of the same
      drag does not raise it again. */
  lemma StartRaisedOnce(s: BoxState, enabled: bool, mouse1: Vec2, mouse2: Vec2, released2: bool)
    requires s.isActive && s.start == s.end
    ensures var first := Inputs(s, enabled, false, true, false, mouse1);
      first.started && !first.applied ==> !Inputs(first.state, enabled, false, true, released2, mouse2).started
  {
  }

  /** The box the selection is tested against. */
  ghost predicate Guarded(s: BoxState) {
    !s.isActive || s.bounding.None? || s.start == s.end
  }

  class SelectionBox {
    var enabled: bool
    var isActive: bool
    var start: Vec2
    var end: Vec2
    var bounding: Option<BoundingBox2D>
    var overlapped: seq<TreeNode>

    function State(): BoxState
      reads this`isActive, this`start, this`end, this`bounding, this`overlapped
    {
      BoxState(isActive, start, end, bounding, overlapped)
    }

    ghost predicate Valid()
      reads this`isActive, this`start, this`end, this`bounding, this`overlapped
    {
      Consistent(State())
    }

    /** `new SelectionBox()`: enabled and idle. */
    constructor ()
      ensures Valid() && enabled && State() == Idle
    {
      enabled := true;
      isActive := false;
      start, end := Zero, Zero;
      bounding := None;
      overlapped := [];
    }

    /** `HandleInputs`, with the mouse buttons and position as parameters. */
    method HandleInputs(clicked: bool, down: bool, released: bool, mouse: Vec2) returns (started: bool, applied: bool)
      requires Valid()
      modifies this`isActive, this`start, this`end, this`bounding, this`overlapped
      ensures Valid()
      ensures Step(State(), started, applied) == Inputs(old(State()), enabled, clicked, down, released, mouse)
    {
      started, applied := false, false;
      if clicked && !isActive && enabled {
        start := mouse;
        end := mouse;
        isActive := true;
      } else if down && isActive {
        var previousMatch := start == end;
        end := mouse;
        if previousMatch && start != end {
          started := true;
        }
        bounding := Some(Span(start, end));
      }
      if (!down || released) && isActive {
        applied := true;
        Reset();
      }
    }

    /** `Reset`: back to the idle state; nothing happens to an idle box. */
    method Reset()
      modifies this`isActive, this`start, this`end, this`bounding, this`overlapped
      ensures State() == Cleared(old(State()))
    {
      if !isActive {
        return;
      }
      overlapped := [];
      start := Zero;
      end := Zero;
      isActive := false;
      bounding := None;
    }

    /** `CheckFrameSelection`: called after an element is drawn, with the
        element's rectangle and the ctrl key. An element entering the box is
        tracked and selected (flipped with ctrl); one leaving it is dropped
        and deselected (flipped with ctrl); otherwise nothing happens. */
    method CheckFrameSelection(node: TreeNode, itemMin: Vec2, itemMax: Vec2, ctrl: bool)
      requires Valid()
      modifies this`overlapped, node`isSelected, node`selectedEvents
      ensures Valid()
      ensures Guarded(State()) ==> overlapped == old(overlapped) && node.isSelected == old(node.isSelected)
      ensures !Guarded(State()) ==> (node in overlapped <==> bounding.value.Overlaps(BoundingBox2D(itemMin, itemMax)))
      ensures !Guarded(State()) && node !in old(overlapped) && node in overlapped ==>
                overlapped == old(overlapped) + [node] && node.isSelected == (ctrl ==> !old(node.isSelected))
      ensures !Guarded(State()) && node in old(overlapped) && node !in overlapped ==>
                overlapped == Seqs.RemoveFirst(old(overlapped), node) && node.isSelected == (ctrl && !old(node.isSelected))
      ensures (node in overlapped <==> node in old(overlapped)) ==> overlapped == old(overlapped) && node.isSelected == old(node.isSelected)
      ensures node.selectedEvents == old(node.selectedEvents) + (if node.isSelected == old(node.isSelected) then 0 else 1)
    {
      if !isActive || bounding.None? || start == end {
        return;
      }
      var itemBox := BoundingBox2D(itemMin, itemMax);
      var isOverlapping := bounding.value.Overlaps(itemBox);
      var hasBeenOverlapped := node in overlapped;
      if isOverlapping && !hasBeenOverlapped {
        Seqs.AppendFresh(overlapped, node);
        overlapped := overlapped + [node];
        if ctrl {
          node.SetSelected(!node.isSelected);
        } else {
          node.SetSelected(true);
        }
      } else if !isOverlapping && hasBeenOverlapped {
        Seqs.RemoveFirstNoDuplicates(overlapped, node);
        overlapped := Seqs.RemoveFirst(overlapped, node);
        if ctrl {
          node.SetSelected(!node.isSelected);
        } else {
          node.SetSelected(false);
        }
      }
    }

    /** `Render` without the drawing: a disabled box that is still active is
        reset and reads no input; otherwise the frame's input is handled. */
    method Render(clicked: bool, down: bool, released: bool, mouse: Vec2) returns (started: bool, applied: bool)
      requires Valid()
      modifies this`isActive, this`start, this`end, this`bounding, this`overlapped
      ensures Valid()
      ensures !enabled && old(isActive) ==> State() == Idle && !started && !applied
      ensures enabled || !old(isActive) ==> Step(State(), started, applied) == Inputs(old(State()), enabled, clicked, down, released, mouse)
    {
      if !enabled && isActive {
        Reset();
        return false, false;
      }
      started, applied := HandleInputs(clicked, down, released, mouse);
    }
  }
}
