/** `TreeNode`: one node of the outliner tree, with its change-notifying
    properties, its children and its parent link. */
module TreeNodes {
  import opened Wrappers
  import Seqs
  import HeaderOrder

  /** What the `Header` getter shows while no header is stored. */
  const NullHeader := "<NULL>"

  class TreeNode {
    var header: Option<string>
    var parent: TreeNode?
    var children: seq<TreeNode>
    var hasCheckBox: bool
    var canRename: bool
    var canDragDrop: bool
    /** Set by a context menu to ask the tree view for an immediate rename. */
    var activateRename: bool
    var isExpanded: bool
    var isSelected: bool
    var isChecked: bool
    var index: int

    /** How many times `OnHeaderChanged`, `OnSelected`, `OnChecked` and
        `OnHeaderRenamed` were raised, and `OnDoubleClicked` was called. */
    var headerChanged: nat
    var selectedEvents: nat
    var checkedEvents: nat
    var headerRenamed: nat
    var doubleClicks: nat

    /** The node and everything below it. */
    ghost var repr: set<TreeNode>

    /** The children form a finite tree below this node (siblings may share
        nodes; no node is its own descendant). Only the structural fields are
        read, so selecting, checking or expanding nodes keeps it. */
    ghost predicate Valid()
      reads this`repr, this`children, repr`repr, repr`children
      decreases repr
    {
      this in repr
      && (forall c :: c in children ==> c in repr && c.repr <= repr && this !in c.repr && c.Valid())
      && repr == {this} + Union(children)
    }

    /** `new TreeNode()`. */
    constructor ()
      ensures Valid() && repr == {this}
      ensures header.None? && parent == null && children == []
      ensures !isExpanded && !isSelected && isChecked && index == 0
      ensures !hasCheckBox && !canRename && !canDragDrop && !activateRename
      ensures headerChanged == 0 && selectedEvents == 0 && checkedEvents == 0
      ensures headerRenamed == 0 && doubleClicks == 0
    {
      header := None;
      parent := null;
      children := [];
      hasCheckBox, canRename, canDragDrop, activateRename := false, false, false, false;
      isExpanded, isSelected, isChecked := false, false, true;
      index := 0;
      headerChanged, selectedEvents, checkedEvents, headerRenamed, doubleClicks := 0, 0, 0, 0, 0;
      repr := {this};
    }

    /** `new TreeNode(name)`: the header is assigned through its setter while
        no handler can be attached yet, so the change is not observed. */
    constructor Named(name: Option<string>)
      ensures Valid() && repr == {this}
      ensures header == name && parent == null && children == []
      ensures !isExpanded && !isSelected && isChecked && index == 0
      ensures !hasCheckBox && !canRename && !canDragDrop && !activateRename
      ensures headerChanged == 0 && selectedEvents == 0 && checkedEvents == 0
      ensures headerRenamed == 0 && doubleClicks == 0
    {
      header := name;
      parent := null;
      children := [];
      hasCheckBox, canRename, canDragDrop, activateRename := false, false, false, false;
      isExpanded, isSelected, isChecked := false, false, true;
      index := 0;
      headerChanged, selectedEvents, checkedEvents, headerRenamed, doubleClicks := 0, 0, 0, 0, 0;
      repr := {this};
    }

    /** The `Header` getter: a node without a header shows `<NULL>`. */
    function Header(): (h: string)
      reads this`header
      ensures header.None? ==> h == NullHeader
      ensures header.Some? ==> h == header.value
    {
      match header
      case None => NullHeader
      case Some(v) => v
    }

    /** The `Header` setter: an equal value changes nothing and raises
        nothing; a different one is stored and raises `OnHeaderChanged`
        once. */
    method SetHeader(value: Option<string>)
      modifies this`header, this`headerChanged
      ensures header == value
      ensures old(header) == value ==> headerChanged == old(headerChanged)
      ensures old(header) != value ==> headerChanged == old(headerChanged) + 1
    {
      if header != value {
        header := value;
        headerChanged := headerChanged + 1;
      }
    }

    /** The `IsSelected` setter: `OnSelected` is raised only on a change. */
    method SetSelected(value: bool)
      modifies this`isSelected, this`selectedEvents
      ensures isSelected == value
      ensures selectedEvents == old(selectedEvents) + (if old(isSelected) == value then 0 else 1)
    {
      if value != isSelected {
        isSelected := value;
        selectedEvents := selectedEvents + 1;
      }
    }

    /** The `IsExpanded` setter (its two hooks do nothing). */
    method SetExpanded(value: bool)
      modifies this`isExpanded
      ensures isExpanded == value
    {
      isExpanded := value;
    }

    /** The `IsChecked` setter: the value is pushed down to every descendant,
        and this node raises `OnChecked` once, after its children. */
    method SetChecked(value: bool)
      requires Valid()
      modifies repr`isChecked, repr`checkedEvents
      decreases repr
      ensures forall m :: m in repr ==> m.isChecked == value
      ensures checkedEvents == old(checkedEvents) + 1
    {
      isChecked := value;
      var i := 0;
      while i < |children|
        invariant 0 <= i <= |children|
        invariant forall k :: i <= k < |children| ==> children[k].Valid()
        invariant isChecked == value && checkedEvents == old(checkedEvents)
        invariant forall k, m :: 0 <= k < i && m in children[k].repr ==> m.isChecked == value
      {
        children[i].SetChecked(value);
        forall k, m | 0 <= k <= i && m in children[k].repr
          ensures m.isChecked == value
        {
          if m !in children[i].repr {
            assert k < i;
          }
        }
        i := i + 1;
      }
      forall m | m in repr && m != this
        ensures m.isChecked == value
      {
        UnionCover(children, m);
      }
      checkedEvents := checkedEvents + 1;
    }

    /** `children_CollectionChanged`: every child is told its position. A
        child listed twice keeps the later one, so each index points at the
        child's last occurrence. */
    method Reindex()
      requires Valid()
      modifies Seqs.Elems(children)`index
      ensures Valid()
      ensures forall k :: 0 <= k < |children| ==> LastAt(children, children[k].index, |children|) && children[children[k].index] == children[k]
      ensures Seqs.NoDuplicates(children) ==> forall k :: 0 <= k < |children| ==> children[k].index == k
    {
      var i := 0;
      while i < |children|
        invariant 0 <= i <= |children|
        invariant forall k :: 0 <= k < i ==> LastAt(children, children[k].index, i) && children[children[k].index] == children[k]
      {
        children[i].index := i;
        forall k | 0 <= k <= i
          ensures LastAt(children, children[k].index, i + 1) && children[children[k].index] == children[k]
        {
          if children[k] != children[i] {
            assert k < i && children[children[k].index] != children[i];
          }
        }
        i := i + 1;
      }
    }

    /** `AddChild`: the child points back to this node and becomes the last
        child; indexes are refreshed. */
    method AddChild(child: TreeNode)
      requires Valid() && child.Valid() && this !in child.repr
      modifies this`children, this`repr, child`parent, Seqs.Elems(children)`index, child`index
      ensures children == old(children) + [child]
      ensures child.parent == this
      ensures repr == old(repr) + child.repr
      ensures Valid()
      ensures forall k :: 0 <= k < |children| ==> LastAt(children, children[k].index, |children|) && children[children[k].index] == children[k]
      ensures child.index == |old(children)|
    {
      Attach(child);
      assert Seqs.Elems(children) == Seqs.Elems(old(children)) + {child};
      Reindex();
      assert children[|children| - 1] == child;
      child.parent := this;
    }

    /** The list and link updates of `AddChild`. */
    method Attach(child: TreeNode)
      requires Valid() && child.Valid() && this !in child.repr
      modifies this`children, this`repr
      ensures children == old(children) + [child]
      ensures repr == old(repr) + child.repr
      ensures Valid()
    {
      UnionSnoc(children, child);
      ghost var kids := children;
      children := children + [child];
      repr := repr + child.repr;
      forall c | c in children ensures c in repr && c.repr <= repr && this !in c.repr && c.Valid() {
        if c != child {
          assert c in kids;
        }
      }
    }

    /** `ExpandParent`: every ancestor ends up expanded, the node itself is
        left as it was. `chain` lists the ancestors, nearest first. */
    method ExpandParent(ghost chain: seq<TreeNode>)
      requires ParentChain(this, chain)
      modifies Seqs.Elems(chain)`isExpanded
      decreases |chain|
      ensures forall a :: a in chain ==> a.isExpanded
      ensures isExpanded == old(isExpanded)
    {
      NotOwnAncestor(this, chain);
      if parent != null && !parent.isExpanded {
        parent.SetExpanded(true);
      }
      if parent != null {
        assert Seqs.Elems(chain[1..]) <= Seqs.Elems(chain);
        parent.ExpandParent(chain[1..]);
        assert chain == [chain[0]] + chain[1..];
      }
    }

    /** `Sort`: children in ascending header order. */
    method Sort()
      requires Valid()
      modifies this`children, Seqs.Elems(children)`index
      ensures Valid() && multiset(children) == multiset(old(children))
      ensures Seqs.NoDuplicates(old(children)) ==> children == SortedByHeader(old(children), false)
      ensures Seqs.NoDuplicates(old(children)) ==> forall k :: 0 <= k < |children| ==> children[k].index == k
    {
      var keys := map c | c in children :: c.Header();
      Reorder(HeaderOrder.SortBy(children, keys, false));
    }

    /** `SortByDescending`: children in descending header order. */
    method SortByDescending()
      requires Valid()
      modifies this`children, Seqs.Elems(children)`index
      ensures Valid() && multiset(children) == multiset(old(children))
      ensures Seqs.NoDuplicates(old(children)) ==> children == SortedByHeader(old(children), true)
      ensures Seqs.NoDuplicates(old(children)) ==> forall k :: 0 <= k < |children| ==> children[k].index == k
    {
      var keys := map c | c in children :: c.Header();
      Reorder(HeaderOrder.SortBy(children, keys, true));
    }

    /** The private `Sort(list)`: each listed node in turn is moved, from
        wherever `IndexOf` finds it, to its position in the list. */
    method Reorder(sorted: seq<TreeNode>)
      requires Valid() && multiset(sorted) == multiset(children)
      modifies this`children, Seqs.Elems(children)`index
      ensures Valid() && multiset(children) == multiset(old(children))
      ensures Seqs.NoDuplicates(old(children)) ==> children == sorted
      ensures Seqs.NoDuplicates(old(children)) ==> forall k :: 0 <= k < |children| ==> children[k].index == k
    {
      ghost var original := children;
      ghost var unique := Seqs.NoDuplicates(original);
      if unique {
        Seqs.PermutationNoDuplicates(original, sorted);
      }
      assert |sorted| == |multiset(sorted)| == |multiset(children)| == |children|;
      var i := 0;
      while i < |sorted|
        invariant 0 <= i <= |sorted| == |children|
        invariant multiset(children) == multiset(original)
        invariant Seqs.Elems(children) == Seqs.Elems(original)
        invariant Valid()
        invariant unique ==> Seqs.NoDuplicates(children) && children[..i] == sorted[..i]
        invariant unique && 0 < i ==> forall k :: 0 <= k < |children| ==> children[k].index == k
      {
        assert sorted[i] in multiset(children);
        var j := Seqs.IndexOf(children, sorted[i]);
        if unique {
          assert sorted[i] !in sorted[..i];
        }
        ghost var before := children;
        MoveChild(j, i);
        if unique {
          Seqs.PermutationNoDuplicates(before, children);
          Seqs.MoveExtendsPrefix(before, sorted, j, i);
        }
        i := i + 1;
      }
      assert unique ==> children == children[..i] && sorted == sorted[..i];
    }

    /** `Children.Move(from, to)` followed by the reindexing it triggers. */
    method MoveChild(from: nat, to: nat)
      requires Valid() && from < |children| && to < |children|
      modifies this`children, Seqs.Elems(children)`index
      ensures Valid() && children == Seqs.Move(old(children), from, to)
      ensures Seqs.Elems(children) == Seqs.Elems(old(children))
      ensures Seqs.NoDuplicates(children) ==> forall k :: 0 <= k < |children| ==> children[k].index == k
    {
      var moved := Seqs.Move(children, from, to);
      Seqs.PermutationElems(children, moved);
      UnionSameElems(children, moved);
      children := moved;
      Reindex();
    }
  }

  /** `p` is the last position before `n` holding `s[p]`. */
  ghost predicate LastAt<T>(s: seq<T>, p: int, n: int)
    requires n <= |s|
  {
    0 <= p < n && forall j :: p < j < n ==> s[j] != s[p]
  }

  /** The nodes below the listed ones, each listed node included. */
  ghost function Union(s: seq<TreeNode>): set<TreeNode>
    reads s`repr
    decreases |s|
  {
    if s == [] then {} else Union(s[..|s| - 1]) + s[|s| - 1].repr
  }

  lemma UnionSnoc(s: seq<TreeNode>, c: TreeNode)
    ensures Union(s + [c]) == Union(s) + c.repr
  {
    assert (s + [c])[..|s|] == s;
  }

  /** Each listed node's subtree is part of the union. */
  lemma {:induction false} ReprInUnion(s: seq<TreeNode>, c: TreeNode)
    requires c in s
    ensures c.repr <= Union(s)
    decreases |s|
  {
    if c != s[|s| - 1] {
      assert s == s[..|s| - 1] + [s[|s| - 1]];
      ReprInUnion(s[..|s| - 1], c);
    }
  }

  /** Every node of the union lies below one of the listed nodes. */
  lemma {:induction false} UnionCover(s: seq<TreeNode>, m: TreeNode)
    requires m in Union(s)
    ensures exists k :: 0 <= k < |s| && m in s[k].repr
    decreases |s|
  {
    if m !in s[|s| - 1].repr {
      UnionCover(s[..|s| - 1], m);
      var k :| 0 <= k < |s| - 1 && m in s[..|s| - 1][k].repr;
      assert s[k] == s[..|s| - 1][k];
    }
  }

  /** Listing more nodes can only grow the union. */
  lemma {:induction false} UnionMonotone(s: seq<TreeNode>, t: seq<TreeNode>)
    requires Seqs.Elems(s) <= Seqs.Elems(t)
    ensures Union(s) <= Union(t)
    decreases |s|
  {
    if s != [] {
      var last := s[|s| - 1];
      assert last in Seqs.Elems(s);
      ReprInUnion(t, last);
      assert Seqs.Elems(s[..|s| - 1]) <= Seqs.Elems(s) by {
        forall x | x in s[..|s| - 1] ensures x in s {
          var k :| 0 <= k < |s| - 1 && s[..|s| - 1][k] == x;
          assert s[k] == x;
        }
      }
      UnionMonotone(s[..|s| - 1], t);
    }
  }

  /** The union depends only on which nodes are listed. */
  lemma UnionSameElems(s: seq<TreeNode>, t: seq<TreeNode>)
    requires Seqs.Elems(s) == Seqs.Elems(t)
    ensures Union(s) == Union(t)
  {
    UnionMonotone(s, t);
    UnionMonotone(t, s);
  }

  /** `chain` lists the ancestors of `n`, nearest first, ending at a root. */
  ghost predicate ParentChain(n: TreeNode, chain: seq<TreeNode>)
    reads n`parent, Seqs.Elems(chain)`parent
    decreases |chain|
  {
    if n.parent == null then chain == []
    else chain != [] && chain[0] == n.parent && ParentChain(chain[0], chain[1..])
  }

  /** A node has at most one ancestor chain. */
  lemma {:induction false} ParentChainUnique(n: TreeNode, c1: seq<TreeNode>, c2: seq<TreeNode>)
    requires ParentChain(n, c1) && ParentChain(n, c2)
    ensures c1 == c2
    decreases |c1|
  {
    if n.parent != null {
      ParentChainUnique(c1[0], c1[1..], c2[1..]);
      assert c1 == [c1[0]] + c1[1..] && c2 == [c2[0]] + c2[1..];
    }
  }

  /** Every suffix of an ancestor chain is the chain of its first node. */
  lemma {:induction false} ParentChainSuffix(n: TreeNode, chain: seq<TreeNode>, k: nat)
    requires ParentChain(n, chain) && k < |chain|
    ensures ParentChain(chain[k], chain[k + 1..])
    decreases k
  {
    if k > 0 {
      ParentChainSuffix(chain[0], chain[1..], k - 1);
      assert chain[1..][k - 1 + 1..] == chain[k + 1..];
    }
  }

  /** No node is its own ancestor. */
  lemma NotOwnAncestor(n: TreeNode, chain: seq<TreeNode>)
    requires ParentChain(n, chain)
    ensures n !in chain
  {
    if n in chain {
      var k :| 0 <= k < |chain| && chain[k] == n;
      ParentChainSuffix(n, chain, k);
      ParentChainUnique(n, chain, chain[k + 1..]);
    }
  }

  /** The order the sorts establish: `s` sorted by header. */
  ghost function SortedByHeader(s: seq<TreeNode>, descending: bool): (r: seq<TreeNode>)
    reads s`header
    ensures multiset(r) == multiset(s)
    ensures forall i, j :: 0 <= i < j < |r| ==> !HeaderOrder.Precedes(r[j].Header(), r[i].Header(), descending)
  {
    var keys := map c | c in s :: c.Header();
    var r := HeaderOrder.SortBy(s, keys, descending);
    assert forall c :: c in r ==> c in multiset(r) && c in multiset(s) && c in s;
    r
  }
}
