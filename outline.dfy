/** The order in which the tree view's recursive walks meet the nodes, and
    what the walks compute, as functions of the tree: the pre-order listing
    the draw and scroll walks follow, the search filter, the shift-click
    range walk and the scroll-offset walk. */
module Outline {
  import opened TreeNodes
  import Seqs
  import TextSearch

  /** Every listed node is a well-formed tree lying inside `F`. */
  ghost predicate Within(s: seq<TreeNode>, F: set<TreeNode>)
    reads F`repr, F`children
  {
    forall c :: c in s ==> c in F && c.repr <= F && c.Valid()
  }

  /** Adding a well-formed tree to the footprint keeps a listing within
      it, and the tree's root may then be listed too. */
  lemma WithinGrow(s: seq<TreeNode>, F: set<TreeNode>, n: TreeNode)
    requires Within(s, F) && n.Valid()
    ensures Within(s, F + n.repr) && Within(s + [n], F + n.repr)
  {
  }

  /** The children of a well-formed node lie inside its subtree minus
      itself. */
  lemma ChildrenWithin(n: TreeNode)
    requires n.Valid()
    ensures Within(n.children, n.repr - {n})
  {
  }

  /** Pre-order: the node, then what lies below it. */
  ghost function Order(n: TreeNode, all: bool): seq<TreeNode>
    requires n.Valid()
    reads n`repr, n.repr`repr, n.repr`children, n.repr`isExpanded
    decreases n.repr, 1
  {
    [n] + Below(n, all)
  }

  /** Below a node: when `all` is set or the node is expanded, its
      children's listings in order; otherwise nothing. */
  ghost function Below(n: TreeNode, all: bool): seq<TreeNode>
    requires n.Valid()
    reads n`repr, n.repr`repr, n.repr`children, n.repr`isExpanded
    decreases n.repr, 0
  {
    if all || n.isExpanded then OrderList(n.children, 0, all, n.repr - {n}) else []
  }

  /** The listings of `s[i..]`, one after another. */
  ghost function OrderList(s: seq<TreeNode>, i: nat, all: bool, F: set<TreeNode>): seq<TreeNode>
    requires i <= |s| && Within(s, F)
    reads F`repr, F`children, F`isExpanded
    decreases F, 2, |s| - i
  {
    if i == |s| then [] else Order(s[i], all) + OrderList(s, i + 1, all, F)
  }

  /** A node's listing stays inside its subtree. */
  lemma {:induction false} OrderIn(n: TreeNode, all: bool)
    requires n.Valid()
    ensures forall m :: m in Order(n, all) ==> m in n.repr
    decreases n.repr, 1
  {
    ChildrenWithin(n);
    if all || n.isExpanded {
      OrderListIn(n.children, 0, all, n.repr - {n});
    }
  }

  /** The listings of a sequence of trees stay inside their common
      footprint. */
  lemma {:induction false} OrderListIn(s: seq<TreeNode>, i: nat, all: bool, F: set<TreeNode>)
    requires i <= |s| && Within(s, F)
    ensures forall m :: m in OrderList(s, i, all, F) ==> m in F
    decreases F, 2, |s| - i
  {
    if i < |s| {
      OrderIn(s[i], all);
      OrderListIn(s, i + 1, all, F);
    }
  }

  /** `HasText`: the header holds the search text, ignoring case. The
      `Header` getter never yields null, so the null test always passes. */
  function HasText(n: TreeNode, text: string): (r: bool)
    reads n`header
    ensures r <==> exists k :: TextSearch.MatchAt(n.Header(), text, k)
  {
    TextSearch.IndexOfIgnoreCase(n.Header(), text) >= 0
  }

  /** `isVisible`: every node while no search is active, the matching ones
      during a search. */
  predicate Visible(n: TreeNode, isSearch: bool, text: string)
    reads n`header
  {
    (isSearch && HasText(n, text)) || !isSearch
  }

  /** The visible nodes of a listing, in order. */
  ghost function Shown(s: seq<TreeNode>, isSearch: bool, text: string): (r: seq<TreeNode>)
    reads s`header
    ensures |r| <= |s|
  {
    if s == [] then []
    else (if Visible(s[0], isSearch, text) then [s[0]] else []) + Shown(s[1..], isSearch, text)
  }

  /** The filtered listing holds exactly the visible nodes of the listing. */
  lemma {:induction false} ShownMembers(s: seq<TreeNode>, isSearch: bool, text: string)
    ensures forall m :: m in Shown(s, isSearch, text) <==> m in s && Visible(m, isSearch, text)
  {
    if s != [] {
      ShownMembers(s[1..], isSearch, text);
      assert s == [s[0]] + s[1..];
    }
  }

  /** The nodes of a listing that lie in `V`, in order: the filter once
      the set of visible nodes is known. */
  ghost function Kept(s: seq<TreeNode>, V: set<TreeNode>): (r: seq<TreeNode>)
    ensures |r| <= |s|
  {
    if s == [] then []
    else (if s[0] in V then [s[0]] else []) + Kept(s[1..], V)
  }

  /** With `V` the visible nodes of a listing, filtering by `V` is the
      search filter. */
  lemma {:induction false} ShownKept(s: seq<TreeNode>, isSearch: bool, text: string, V: set<TreeNode>)
    requires forall m :: m in s ==> (Visible(m, isSearch, text) <==> m in V)
    ensures Shown(s, isSearch, text) == Kept(s, V)
  {
    if s != [] {
      assert forall m :: m in s[1..] ==> m in s;
      ShownKept(s[1..], isSearch, text, V);
    }
  }

  /** Filtering a concatenation filters each part. */
  lemma {:induction false} KeptAppend(s: seq<TreeNode>, t: seq<TreeNode>, V: set<TreeNode>)
    ensures Kept(s + t, V) == Kept(s, V) + Kept(t, V)
  {
    if s == [] {
      assert s + t == t;
    } else {
      var h := if s[0] in V then [s[0]] else [];
      calc {
        Kept(s + t, V);
      == { assert (s + t)[0] == s[0] && (s + t)[1..] == s[1..] + t; }
        h + Kept(s[1..] + t, V);
      == { KeptAppend(s[1..], t, V); }
        h + (Kept(s[1..], V) + Kept(t, V));
      }
    }
  }

  /** Filtering a listing that starts with `n`. */
  lemma KeptCons(n: TreeNode, s: seq<TreeNode>, V: set<TreeNode>)
    ensures Kept([n] + s, V) == (if n in V then [n] else []) + Kept(s, V)
  {
    assert ([n] + s)[0] == n && ([n] + s)[1..] == s;
  }

  /** Without a search every node is shown. */
  lemma {:induction false} ShownAll(s: seq<TreeNode>, text: string)
    ensures Shown(s, false, text) == s
  {
    if s != [] {
      ShownAll(s[1..], text);
    }
  }

  // The shift-click range walk

  /** `n` is one of the two ends of the range. */
  predicate IsEnd(n: TreeNode, a: TreeNode?, b: TreeNode) {
    n == a || n == b
  }

  /** The listing holds an end of the range. */
  ghost predicate Hits(s: seq<TreeNode>, a: TreeNode?, b: TreeNode) {
    exists m :: m in s && IsEnd(m, a, b)
  }

  /** What follows the first end of the range in a listing. */
  ghost function Tail(s: seq<TreeNode>, a: TreeNode?, b: TreeNode): seq<TreeNode> {
    if s == [] then []
    else if IsEnd(s[0], a, b) then s[1..]
    else Tail(s[1..], a, b)
  }

  lemma {:induction false} TailAppend(s: seq<TreeNode>, t: seq<TreeNode>, a: TreeNode?, b: TreeNode)
    ensures Hits(s, a, b) ==> Tail(s + t, a, b) == Tail(s, a, b) + t
    ensures !Hits(s, a, b) ==> Tail(s + t, a, b) == Tail(t, a, b) && Tail(s, a, b) == []
  {
    if s == [] {
      assert s + t == t;
    } else {
      assert (s + t)[0] == s[0] && (s + t)[1..] == s[1..] + t;
      TailAppend(s[1..], t, a, b);
      if !IsEnd(s[0], a, b) {
        assert Hits(s, a, b) ==> Hits(s[1..], a, b);
      }
    }
  }

  /** The state the walk threads through its calls: whether the walk stopped
      (the `true` a call returns), the `isInRange` flag, the nodes it set
      selected and how often it raised `OnSelectionChanged`. */
  datatype Outcome = Outcome(stop: bool, inRange: bool, marked: set<TreeNode>, fired: nat)

  /** The private `SelectNodeRange(node, …, ref isInRange)`, as written: an
      end met while in range stops the walk at this level only; the caller
      returns `false` and its siblings are still walked, still in range. */
  ghost function Walk(n: TreeNode, a: TreeNode?, b: TreeNode, inRange: bool): Outcome
    requires n.Valid()
    reads n`repr, n.repr`repr, n.repr`children, n.repr`isExpanded
    decreases n.repr, 1
  {
    var hit := IsEnd(n, a, b);
    if hit && inRange then Outcome(true, true, {}, 1)
    else
      var start := Outcome(false, inRange || hit, if inRange then {n} else {}, 0);
      if n.isExpanded then
        ChildrenWithin(n);
        WalkList(n.children, 0, a, b, start, n.repr - {n}).(stop := false)
      else start
  }

  /** The loop over `s[i..]` that breaks on the first `true`. */
  ghost function WalkList(s: seq<TreeNode>, i: nat, a: TreeNode?, b: TreeNode, acc: Outcome, F: set<TreeNode>): Outcome
    requires i <= |s| && Within(s, F)
    reads F`repr, F`children, F`isExpanded
    decreases F, 2, |s| - i
  {
    if i == |s| then acc
    else
      var o := Walk(s[i], a, b, acc.inRange);
      var next := Outcome(o.stop, o.inRange, acc.marked + o.marked, acc.fired + o.fired);
      if o.stop then next else WalkList(s, i + 1, a, b, next, F)
  }

  /** What the range walk below `n` does, in terms of its expanded
      pre-order `Order(n, false)`: it stops only when it was already in
      range; it ends in range exactly when it was or met an end; it marks
      only nodes it lists (never a node inside a collapsed one), and only
      nodes after the first end when it started out of range; it never
      marks an end. */
  lemma {:induction false} WalkShape(n: TreeNode, a: TreeNode?, b: TreeNode, inRange: bool)
    requires n.Valid()
    ensures var w := Walk(n, a, b, inRange); var o := Order(n, false);
      (w.stop ==> inRange)
      && (inRange ==> w.inRange)
      && (!inRange ==> (w.inRange <==> Hits(o, a, b)))
      && w.marked <= (if inRange then Seqs.Elems(o) else Seqs.Elems(Tail(o, a, b)))
      && a !in w.marked && b !in w.marked
    decreases n.repr, 1
  {
    var hit := IsEnd(n, a, b);
    if !(hit && inRange) {
      var start := Outcome(false, inRange || hit, if inRange then {n} else {}, 0);
      ChildrenWithin(n);
      var F := n.repr - {n};
      var kids := if n.isExpanded then OrderList(n.children, 0, false, F) else [];
      var o := Order(n, false);
      assert Below(n, false) == kids;
      assert o == [n] + kids;
      assert o[0] == n && o[1..] == kids;
      Seqs.ElemsAppend([n], kids);
      if n.isExpanded {
        WalkListShape(n.children, 0, a, b, start, F);
      }
    }
  }

  lemma {:induction false} WalkListShape(s: seq<TreeNode>, i: nat, a: TreeNode?, b: TreeNode, acc: Outcome, F: set<TreeNode>)
    requires i <= |s| && Within(s, F)
    ensures var w := WalkList(s, i, a, b, acc, F); var o := OrderList(s, i, false, F);
      (acc.inRange ==> w.inRange)
      && (!acc.inRange ==> (w.inRange <==> Hits(o, a, b)))
      && acc.marked <= w.marked
      && w.marked <= acc.marked + (if acc.inRange then Seqs.Elems(o) else Seqs.Elems(Tail(o, a, b)))
      && (a !in acc.marked && b !in acc.marked ==> a !in w.marked && b !in w.marked)
    decreases F, 2, |s| - i
  {
    if i < |s| {
      var x := Order(s[i], false);
      var rest := OrderList(s, i + 1, false, F);
      var wi := Walk(s[i], a, b, acc.inRange);
      var next := Outcome(wi.stop, wi.inRange, acc.marked + wi.marked, acc.fired + wi.fired);
      WalkShape(s[i], a, b, acc.inRange);
      TailAppend(x, rest, a, b);
      Seqs.ElemsAppend(x, rest);
      Seqs.ElemsAppend(Tail(x, a, b), rest);
      if !wi.stop {
        WalkListShape(s, i + 1, a, b, next, F);
      }
    }
  }

  /** The walk below `n` marks only nodes of `n`'s subtree. */
  lemma {:induction false} WalkIn(n: TreeNode, a: TreeNode?, b: TreeNode, inRange: bool)
    requires n.Valid()
    ensures Walk(n, a, b, inRange).marked <= n.repr
    decreases n.repr, 1
  {
    var hit := IsEnd(n, a, b);
    if !(hit && inRange) && n.isExpanded {
      ChildrenWithin(n);
      WalkListIn(n.children, 0, a, b, Outcome(false, inRange || hit, if inRange then {n} else {}, 0), n.repr - {n});
    }
  }

  /** The loop marks only nodes of the trees it walks. */
  lemma {:induction false} WalkListIn(s: seq<TreeNode>, i: nat, a: TreeNode?, b: TreeNode, acc: Outcome, F: set<TreeNode>)
    requires i <= |s| && Within(s, F)
    ensures WalkList(s, i, a, b, acc, F).marked <= acc.marked + F
    decreases F, 2, |s| - i
  {
    if i < |s| {
      var o := Walk(s[i], a, b, acc.inRange);
      WalkIn(s[i], a, b, acc.inRange);
      if !o.stop {
        WalkListIn(s, i + 1, a, b, Outcome(o.stop, o.inRange, acc.marked + o.marked, acc.fired + o.fired), F);
      }
    }
  }

  /** The loop's accumulator only adds to what the loop finds on its own,
      started afresh with the same `isInRange`. */
  lemma {:induction false} WalkListShift(s: seq<TreeNode>, i: nat, a: TreeNode?, b: TreeNode, acc: Outcome, F: set<TreeNode>)
    requires i <= |s| && Within(s, F) && !acc.stop
    ensures var w := WalkList(s, i, a, b, acc, F);
      var v := WalkList(s, i, a, b, Outcome(false, acc.inRange, {}, 0), F);
      w.stop == v.stop && w.inRange == v.inRange && w.marked == acc.marked + v.marked && w.fired == acc.fired + v.fired
    decreases |s| - i
  {
    if i < |s| {
      var o := Walk(s[i], a, b, acc.inRange);
      var next := Outcome(o.stop, o.inRange, acc.marked + o.marked, acc.fired + o.fired);
      var alone := Outcome(o.stop, o.inRange, {} + o.marked, 0 + o.fired);
      if !o.stop {
        WalkListShift(s, i + 1, a, b, next, F);
        WalkListShift(s, i + 1, a, b, alone, F);
      }
    }
  }

  /** Walking a forest from its first root, out of range. */
  ghost function RangeWalk(roots: seq<TreeNode>, a: TreeNode?, b: TreeNode, F: set<TreeNode>): Outcome
    requires Within(roots, F)
    reads F`repr, F`children, F`isExpanded
  {
    WalkList(roots, 0, a, b, Outcome(false, false, {}, 0), F)
  }

  /** The range walk over a forest marks only nodes that follow the first
      end in the expanded pre-order, never an end itself: in particular
      nothing before the first end, and nothing inside a collapsed node. */
  lemma RangeWalkMarksAfterFirstEnd(roots: seq<TreeNode>, a: TreeNode?, b: TreeNode, F: set<TreeNode>)
    requires Within(roots, F)
    ensures var w := RangeWalk(roots, a, b, F); var o := OrderList(roots, 0, false, F);
      w.marked <= Seqs.Elems(Tail(o, a, b)) && a !in w.marked && b !in w.marked
      && (w.inRange <==> Hits(o, a, b))
  {
    WalkListShape(roots, 0, a, b, Outcome(false, false, {}, 0), F);
  }

  /** In a listing without repeats, a node met before the first end is not
      in what follows it. */
  lemma {:induction false} BeforeFirstEndNotInTail(s: seq<TreeNode>, a: TreeNode?, b: TreeNode, k: nat)
    requires Seqs.NoDuplicates(s) && k < |s|
    requires forall j :: 0 <= j <= k ==> !IsEnd(s[j], a, b)
    ensures s[k] !in Tail(s, a, b)
  {
    if k > 0 {
      assert Seqs.NoDuplicates(s[1..]) by {
        forall p, q | 0 <= p < q < |s[1..]| ensures s[1..][p] != s[1..][q] {
          assert s[1..][p] == s[p + 1] && s[1..][q] == s[q + 1];
        }
      }
      BeforeFirstEndNotInTail(s[1..], a, b, k - 1);
    } else {
      Seqs.NoDuplicatesLater(s, 0);
      assert s[1..] == s[0 + 1..];
      TailSuffix(s[1..], a, b);
    }
  }

  /** What follows the first end is a suffix of the listing. */
  lemma {:induction false} TailSuffix(s: seq<TreeNode>, a: TreeNode?, b: TreeNode)
    ensures forall m :: m in Tail(s, a, b) ==> m in s
  {
    if s != [] && !IsEnd(s[0], a, b) {
      TailSuffix(s[1..], a, b);
    }
  }

  /** When the expanded pre-order of the forest lists no node twice, the
      walk leaves every node up to the first end untouched. */
  lemma RangeWalkSparesPrefix(roots: seq<TreeNode>, a: TreeNode?, b: TreeNode, F: set<TreeNode>, k: nat)
    requires Within(roots, F)
    requires var o := OrderList(roots, 0, false, F);
      Seqs.NoDuplicates(o) && k < |o| && forall j :: 0 <= j <= k ==> !IsEnd(o[j], a, b)
    ensures OrderList(roots, 0, false, F)[k] !in RangeWalk(roots, a, b, F).marked
  {
    RangeWalkMarksAfterFirstEnd(roots, a, b, F);
    BeforeFirstEndNotInTail(OrderList(roots, 0, false, F), a, b, k);
  }

  /** What comes before the first end of the range in a listing. */
  ghost function Before(s: seq<TreeNode>, a: TreeNode?, b: TreeNode): seq<TreeNode> {
    if s == [] || IsEnd(s[0], a, b) then [] else [s[0]] + Before(s[1..], a, b)
  }

  lemma {:induction false} BeforeAppend(s: seq<TreeNode>, t: seq<TreeNode>, a: TreeNode?, b: TreeNode)
    ensures Hits(s, a, b) ==> Before(s + t, a, b) == Before(s, a, b)
    ensures !Hits(s, a, b) ==> Before(s + t, a, b) == s + Before(t, a, b) && Before(s, a, b) == s
  {
    if s == [] {
      assert s + t == t;
    } else {
      assert (s + t)[0] == s[0] && (s + t)[1..] == s[1..] + t;
      BeforeAppend(s[1..], t, a, b);
      if !IsEnd(s[0], a, b) {
        assert Hits(s, a, b) ==> Hits(s[1..], a, b);
        assert !Hits(s, a, b) ==> !Hits(s[1..], a, b);
        assert [s[0]] + (s[1..] + Before(t, a, b)) == s + Before(t, a, b);
        assert [s[0]] + s[1..] == s;
      }
    }
  }

  /** The lower bound of the walk below `n`: started in range, it marks
      every node of the expanded pre-order up to the first end; started out
      of range, every node from just after the first end up to the next. */
  lemma {:induction false} WalkCovers(n: TreeNode, a: TreeNode?, b: TreeNode, inRange: bool)
    requires n.Valid()
    ensures var o := Order(n, false);
      Seqs.Elems(Before(if inRange then o else Tail(o, a, b), a, b)) <= Walk(n, a, b, inRange).marked
    decreases n.repr, 1
  {
    var hit := IsEnd(n, a, b);
    var o := Order(n, false);
    ChildrenWithin(n);
    var F := n.repr - {n};
    var kids := if n.isExpanded then OrderList(n.children, 0, false, F) else [];
    assert Below(n, false) == kids;
    assert o == [n] + kids;
    assert o[0] == n && o[1..] == kids;
    if !(hit && inRange) {
      var start := Outcome(false, inRange || hit, if inRange then {n} else {}, 0);
      var w := Walk(n, a, b, inRange);
      if n.isExpanded {
        WalkListShape(n.children, 0, a, b, start, F);
        WalkListCovers(n.children, 0, a, b, start, F);
        assert w.marked == WalkList(n.children, 0, a, b, start, F).marked;
      } else {
        assert w == start;
      }
      Seqs.ElemsAppend([n], Before(kids, a, b));
    }
  }

  /** The same lower bound for the loop over `s[i..]`. */
  lemma {:induction false} WalkListCovers(s: seq<TreeNode>, i: nat, a: TreeNode?, b: TreeNode, acc: Outcome, F: set<TreeNode>)
    requires i <= |s| && Within(s, F)
    ensures var o := OrderList(s, i, false, F);
      Seqs.Elems(Before(if acc.inRange then o else Tail(o, a, b), a, b)) <= WalkList(s, i, a, b, acc, F).marked
    decreases F, 2, |s| - i
  {
    if i < |s| {
      var x := Order(s[i], false);
      var rest := OrderList(s, i + 1, false, F);
      var wi := Walk(s[i], a, b, acc.inRange);
      var next := Outcome(wi.stop, wi.inRange, acc.marked + wi.marked, acc.fired + wi.fired);
      assert OrderList(s, i, false, F) == x + rest;
      assert x[0] == s[i];
      var px := if acc.inRange then x else Tail(x, a, b);
      var pr := if acc.inRange || Hits(x, a, b) then rest else Tail(rest, a, b);
      var w := WalkList(s, i, a, b, acc, F);
      WalkFlags(s[i], a, b, acc.inRange);
      WalkCovers(s[i], a, b, acc.inRange);
      PendingSplit(x, rest, a, b, acc.inRange);
      assert Seqs.Elems(Before(px, a, b)) <= wi.marked;
      if wi.stop {
        assert w == next;
      } else {
        assert w == WalkList(s, i + 1, a, b, next, F);
        WalkListShape(s, i + 1, a, b, next, F);
        WalkListCovers(s, i + 1, a, b, next, F);
        assert Seqs.Elems(Before(pr, a, b)) <= w.marked;
      }
      assert wi.marked <= w.marked;
    }
  }

  /** The walk below `n` stops only at `n` itself, an end met in range, and
      ends in range exactly when it started so or its listing holds an end. */
  lemma WalkFlags(n: TreeNode, a: TreeNode?, b: TreeNode, inRange: bool)
    requires n.Valid()
    ensures var w := Walk(n, a, b, inRange);
      (w.stop ==> inRange && IsEnd(n, a, b) && Hits(Order(n, false), a, b))
      && w.inRange == (inRange || Hits(Order(n, false), a, b))
  {
    WalkShape(n, a, b, inRange);
    assert Order(n, false)[0] == n;
  }

  /** What is left to mark in `x + rest` is what is left in `x`, then, when
      `x` holds no further end, what is left in `rest`, now in range
      exactly when it was or `x` met an end. */
  lemma PendingSplit(x: seq<TreeNode>, rest: seq<TreeNode>, a: TreeNode?, b: TreeNode, inRange: bool)
    ensures var px := if inRange then x else Tail(x, a, b);
      var pr := if inRange || Hits(x, a, b) then rest else Tail(rest, a, b);
      Seqs.Elems(Before(if inRange then x + rest else Tail(x + rest, a, b), a, b))
        <= Seqs.Elems(Before(px, a, b)) + (if Hits(px, a, b) then {} else Seqs.Elems(Before(pr, a, b)))
  {
    TailAppend(x, rest, a, b);
    BeforeAppend(x, rest, a, b);
    BeforeAppend(Tail(x, a, b), rest, a, b);
    BeforeAppend(Tail(x, a, b), [], a, b);
    assert Tail(x, a, b) + [] == Tail(x, a, b);
    Seqs.ElemsAppend(x, Before(rest, a, b));
    Seqs.ElemsAppend(Tail(x, a, b), Before(rest, a, b));
  }

  /** The range walk marks every node of the expanded pre-order that lies
      strictly between the first end and the next end after it. */
  lemma RangeWalkMarksBetweenEnds(roots: seq<TreeNode>, a: TreeNode?, b: TreeNode, F: set<TreeNode>, i: nat, j: nat)
    requires Within(roots, F)
    requires var o := OrderList(roots, 0, false, F);
      i < j < |o| && IsEnd(o[i], a, b)
      && (forall p :: 0 <= p < i ==> !IsEnd(o[p], a, b))
      && (forall p :: i < p <= j ==> !IsEnd(o[p], a, b))
    ensures OrderList(roots, 0, false, F)[j] in RangeWalk(roots, a, b, F).marked
  {
    var o := OrderList(roots, 0, false, F);
    WalkListCovers(roots, 0, a, b, Outcome(false, false, {}, 0), F);
    TailAt(o, a, b, i);
    BeforeHolds(o[i + 1..], a, b, j - i - 1);
  }

  /** Where the first end sits at `i`, what follows it is `s[i + 1..]`. */
  lemma {:induction false} TailAt(s: seq<TreeNode>, a: TreeNode?, b: TreeNode, i: nat)
    requires i < |s| && IsEnd(s[i], a, b) && forall p :: 0 <= p < i ==> !IsEnd(s[p], a, b)
    ensures Tail(s, a, b) == s[i + 1..]
  {
    if i > 0 {
      TailAt(s[1..], a, b, i - 1);
      assert s[1..][i..] == s[i + 1..];
    }
  }

  /** A node listed with no end up to it comes before the first end. */
  lemma {:induction false} BeforeHolds(s: seq<TreeNode>, a: TreeNode?, b: TreeNode, q: nat)
    requires q < |s| && forall p :: 0 <= p <= q ==> !IsEnd(s[p], a, b)
    ensures s[q] in Before(s, a, b)
  {
    if q > 0 {
      BeforeHolds(s[1..], a, b, q - 1);
    }
  }

  /** A range whose anchor is not listed (removed from the tree, or hidden in
      a collapsed node) never closes: in an expanded pre-order without
      repeats that lists the clicked node, the walk marks exactly every node
      after the clicked one. */
  lemma DanglingAnchorMarksRest(roots: seq<TreeNode>, a: TreeNode?, b: TreeNode, F: set<TreeNode>)
    requires Within(roots, F)
    requires var o := OrderList(roots, 0, false, F);
      Seqs.NoDuplicates(o) && a !in o && b in o
    ensures var o := OrderList(roots, 0, false, F);
      RangeWalk(roots, a, b, F).marked == Seqs.Elems(o[Seqs.IndexOf(o, b) + 1..])
  {
    var o := OrderList(roots, 0, false, F);
    var k := Seqs.IndexOf(o, b);
    forall p | 0 <= p < k ensures !IsEnd(o[p], a, b) {
      assert o[p] in o[..k];
    }
    TailAt(o, a, b, k);
    Seqs.NoDuplicatesLater(o, k);
    assert !Hits(Tail(o, a, b), a, b);
    BeforeAppend(Tail(o, a, b), [], a, b);
    assert Tail(o, a, b) + [] == Tail(o, a, b);
    RangeWalkMarksAfterFirstEnd(roots, a, b, F);
    WalkListCovers(roots, 0, a, b, Outcome(false, false, {}, 0), F);
  }

  /** The walk does not stop at the second end when that end is nested: with
      roots `[r, s]`, `r` expanded with the two ends `x` then `y` as its
      leaf children, the walk stops below `r` on meeting `y` but the root
      loop goes on, still in range, and marks `s`. */
  lemma OverrunPastNestedEnd(r: TreeNode, x: TreeNode, y: TreeNode, s: TreeNode, F: set<TreeNode>)
    requires Within([r, s], F)
    requires r.isExpanded && r.children == [x, y] && x.children == [] && y.children == []
    requires r != s && x != s && y != s && x != y
    ensures s in RangeWalk([r, s], x, y, F).marked
  {
    ChildrenWithin(r);
    var G := r.repr - {r};
    assert x in r.children && y in r.children;
    var init := Outcome(false, false, {}, 0);
    var start := Outcome(false, false, {}, 0);
    assert r != x && r != y;
    assert Walk(x, x, y, false) == Outcome(false, true, {}, 0) by {
      assert WalkList(x.children, 0, x, y, Outcome(false, true, {}, 0), x.repr - {x}) == Outcome(false, true, {}, 0);
    }
    assert Walk(y, x, y, true) == Outcome(true, true, {}, 1);
    var afterX := Outcome(false, true, {}, 0);
    assert WalkList(r.children, 1, x, y, afterX, G) == Outcome(true, true, {}, 1);
    assert WalkList(r.children, 0, x, y, start, G) == Outcome(true, true, {}, 1);
    assert Walk(r, x, y, false) == Outcome(false, true, {}, 1);
    var afterR := Outcome(false, true, {}, 1);
    assert s !in s.repr - {s};
    assert s in Walk(s, x, y, true).marked by {
      if s.isExpanded {
        ChildrenWithin(s);
        WalkListShape(s.children, 0, x, y, Outcome(false, true, {s}, 0), s.repr - {s});
      }
    }
    assert s in WalkList([r, s], 1, x, y, afterR, F).marked;
  }

  // The scroll-offset walk

  /** Whether the target was met, and the offset accumulated so far. */
  datatype Found = Found(found: bool, pos: real)

  /** `GetNodePosition(target, parent, ref pos, itemHeight)`. */
  ghost function Position(t: TreeNode, n: TreeNode, pos: real, h: real, isSearch: bool, text: string): Found
    requires n.Valid()
    reads n`repr, n.repr`repr, n.repr`children, n.repr`isExpanded, n.repr`header
    decreases n.repr, 1
  {
    var hasText := HasText(n, text);
    if isSearch && n == t && !hasText then Found(false, pos)
    else if n == t then Found(true, pos)
    else
      var p := if (isSearch && hasText) || !isSearch then pos + h else pos;
      if n.isExpanded then
        ChildrenWithin(n);
        PositionList(t, n.children, 0, p, h, isSearch, text, n.repr - {n})
      else Found(false, p)
  }

  /** The loop over `s[i..]` that returns on the first `true`. */
  ghost function PositionList(t: TreeNode, s: seq<TreeNode>, i: nat, pos: real, h: real, isSearch: bool, text: string, F: set<TreeNode>): Found
    requires i <= |s| && Within(s, F)
    reads F`repr, F`children, F`isExpanded, F`header
    decreases F, 2, |s| - i
  {
    if i == |s| then Found(false, pos)
    else
      var r := Position(t, s[i], pos, h, isSearch, text);
      if r.found then r else PositionList(t, s, i + 1, r.pos, h, isSearch, text, F)
  }

  /** The number of nodes of `s` the search shows. */
  ghost function Count(s: seq<TreeNode>, isSearch: bool, text: string): (c: nat)
    reads s`header
    ensures c <= |s|
  {
    if s == [] then 0
    else (if Visible(s[0], isSearch, text) then 1 else 0) + Count(s[1..], isSearch, text)
  }

  /** `Count` is the length of the filtered listing. */
  lemma {:induction false} CountShown(s: seq<TreeNode>, isSearch: bool, text: string)
    ensures Count(s, isSearch, text) == |Shown(s, isSearch, text)|
  {
    if s != [] {
      CountShown(s[1..], isSearch, text);
    }
  }

  /** Counts add up over a concatenation. */
  lemma {:induction false} CountAppend(s: seq<TreeNode>, t: seq<TreeNode>, isSearch: bool, text: string)
    ensures Count(s + t, isSearch, text) == Count(s, isSearch, text) + Count(t, isSearch, text)
  {
    if s == [] {
      assert s + t == t;
    } else {
      assert (s + t)[0] == s[0] && (s + t)[1..] == s[1..] + t;
      CountAppend(s[1..], t, isSearch, text);
    }
  }

  /** `k` increments of `h`, added one at a time as the walk does. */
  function Steps(k: nat, h: real): (r: real)
    ensures h >= 0.0 ==> r >= 0.0
  {
    if k == 0 then 0.0 else Steps(k - 1, h) + h
  }

  /** Steps add up. */
  lemma {:induction false} StepsAdd(a: nat, b: nat, h: real)
    ensures Steps(a + b, h) == Steps(a, h) + Steps(b, h)
  {
    if b > 0 {
      StepsAdd(a, b - 1, h);
    }
  }

  /** `k` steps of `h` make `k * h`. */
  lemma {:induction false} StepsProduct(k: nat, h: real)
    ensures Steps(k, h) == k as real * h
  {
    if k > 0 {
      StepsProduct(k - 1, h);
    }
  }

  /** The offset walk's result `r`, started at `pos`, agrees with a scan of
      the listing `o`: a visible target is found after one `itemHeight` per
      visible node listed before it; a target hidden by the search is never
      found; an absent one is not found, after one step per visible node. */
  ghost predicate Flat(t: TreeNode, o: seq<TreeNode>, r: Found, pos: real, h: real, isSearch: bool, text: string)
    reads o`header, t`header
  {
    (t !in o ==> r == Found(false, pos + Steps(Count(o, isSearch, text), h)))
    && (t in o && Visible(t, isSearch, text) ==>
          r == Found(true, pos + Steps(Count(o[..Seqs.IndexOf(o, t)], isSearch, text), h)))
    && (t in o && !Visible(t, isSearch, text) ==> !r.found)
  }

  /** Scanning two listings one after the other, the second only when the
      first did not find the target, scans their concatenation. */
  lemma FlatAppend(t: TreeNode, x: seq<TreeNode>, y: seq<TreeNode>, rx: Found, ry: Found, pos: real, h: real, isSearch: bool, text: string)
    requires Flat(t, x, rx, pos, h, isSearch, text)
    requires !rx.found ==> Flat(t, y, ry, rx.pos, h, isSearch, text)
    ensures Flat(t, x + y, if rx.found then rx else ry, pos, h, isSearch, text)
  {
    Seqs.IndexOfAppend(x, y, t);
    if t in x {
      var i := Seqs.IndexOf(x, t);
      assert (x + y)[..i] == x[..i];
    } else if t in y && Visible(t, isSearch, text) {
      FoundInSecond(t, x, y, rx, ry, pos, h, isSearch, text);
    } else if t !in y {
      CountAppend(x, y, isSearch, text);
      StepsAdd(Count(x, isSearch, text), Count(y, isSearch, text), h);
    }
  }

  /** The case of `FlatAppend` where the target is first met in `y`. */
  lemma FoundInSecond(t: TreeNode, x: seq<TreeNode>, y: seq<TreeNode>, rx: Found, ry: Found, pos: real, h: real, isSearch: bool, text: string)
    requires t !in x && t in y && Visible(t, isSearch, text)
    requires Flat(t, x, rx, pos, h, isSearch, text) && Flat(t, y, ry, rx.pos, h, isSearch, text)
    ensures ry == Found(true, pos + Steps(Count((x + y)[..Seqs.IndexOf(x + y, t)], isSearch, text), h))
  {
    Seqs.IndexOfAppend(x, y, t);
    var j := Seqs.IndexOf(y, t);
    var a, b := Count(x, isSearch, text), Count(y[..j], isSearch, text);
    assert rx.pos == pos + Steps(a, h);
    assert ry.pos == rx.pos + Steps(b, h);
    assert (x + y)[..Seqs.IndexOf(x + y, t)] == x + y[..j];
    CountAppend(x, y[..j], isSearch, text);
    var c := Count((x + y)[..Seqs.IndexOf(x + y, t)], isSearch, text);
    assert c == a + b;
    StepsAdd(a, b, h);
    assert ry.pos == pos + Steps(c, h);
  }

  /** `GetNodePosition` in terms of the expanded pre-order below `n`. */
  lemma {:induction false} PositionFlat(t: TreeNode, n: TreeNode, pos: real, h: real, isSearch: bool, text: string)
    requires n.Valid()
    ensures Flat(t, Order(n, false), Position(t, n, pos, h, isSearch, text), pos, h, isSearch, text)
    decreases n.repr, 1
  {
    ChildrenWithin(n);
    var F := n.repr - {n};
    var kids := if n.isExpanded then OrderList(n.children, 0, false, F) else [];
    var o := Order(n, false);
    assert Below(n, false) == kids;
    assert o == [n] + kids;
    if n == t {
      assert o[..0] == [];
    } else {
      var step := if Visible(n, isSearch, text) then h else 0.0;
      var head := Found(false, pos + step);
      assert Flat(t, [n], head, pos, h, isSearch, text);
      if n.isExpanded {
        PositionListFlat(t, n.children, 0, pos + step, h, isSearch, text, F);
        FlatAppend(t, [n], kids, head, PositionList(t, n.children, 0, pos + step, h, isSearch, text, F), pos, h, isSearch, text);
      } else {
        assert o == [n];
      }
    }
  }

  /** The loop over the children, or over the roots, in terms of their
      listings. */
  lemma {:induction false} PositionListFlat(t: TreeNode, s: seq<TreeNode>, i: nat, pos: real, h: real, isSearch: bool, text: string, F: set<TreeNode>)
    requires i <= |s| && Within(s, F)
    ensures Flat(t, OrderList(s, i, false, F), PositionList(t, s, i, pos, h, isSearch, text, F), pos, h, isSearch, text)
    decreases F, 2, |s| - i
  {
    if i < |s| {
      var ri := Position(t, s[i], pos, h, isSearch, text);
      PositionFlat(t, s[i], pos, h, isSearch, text);
      if !ri.found {
        PositionListFlat(t, s, i + 1, ri.pos, h, isSearch, text, F);
      }
      FlatAppend(t, Order(s[i], false), OrderList(s, i + 1, false, F), ri,
                 PositionList(t, s, i + 1, ri.pos, h, isSearch, text, F), pos, h, isSearch, text);
    }
  }
}
