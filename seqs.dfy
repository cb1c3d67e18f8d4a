/** Sequence facts used for the in-place lists of the tree view:
    `List<T>.Contains`, `List<T>.Remove` (first occurrence) and `IndexOf`. */
module Seqs {

  /** No element occurs twice. */
  ghost predicate NoDuplicates<T>(s: seq<T>) {
    forall i, j :: 0 <= i < j < |s| ==> s[i] != s[j]
  }

  /** `List<T>.IndexOf`: the position of the first occurrence of `x`, or -1. */
  function IndexOf<T(==)>(s: seq<T>, x: T): (i: int)
    ensures -1 <= i < |s|
    ensures i >= 0 <==> x in s
    ensures i >= 0 ==> s[i] == x && x !in s[..i]
  {
    if s == [] then -1
    else if s[0] == x then 0
    else
      var j := IndexOf(s[1..], x);
      assert j >= 0 ==> s[1..][..j] == s[1..j + 1];
      if j < 0 then -1 else j + 1
  }

  /** `List<T>.Remove`: drops the first occurrence of `x`, if any. */
  function RemoveFirst<T(==)>(s: seq<T>, x: T): (r: seq<T>)
    ensures x !in s ==> r == s
    ensures x in s ==> r == s[..IndexOf(s, x)] + s[IndexOf(s, x) + 1..]
  {
    if x in s then
      var i := IndexOf(s, x);
      assert s == s[..i] + [s[i]] + s[i + 1..];
      s[..i] + s[i + 1..]
    else
      s
  }

  /** Removing from a duplicate-free list removes every occurrence and
      touches no other element. */
  lemma RemoveFirstNoDuplicates<T>(s: seq<T>, x: T)
    requires NoDuplicates(s)
    ensures NoDuplicates(RemoveFirst(s, x))
    ensures x !in RemoveFirst(s, x)
    ensures forall y :: y != x ==> (y in RemoveFirst(s, x) <==> y in s)
  {
    var r := RemoveFirst(s, x);
    if x in s {
      var i := IndexOf(s, x);
      assert r == s[..i] + s[i + 1..];
      assert forall k :: 0 <= k < |r| ==> r[k] == s[if k < i then k else k + 1];
      forall a, b | 0 <= a < b < |r| ensures r[a] != r[b] {
        assert r[a] == s[if a < i then a else a + 1];
        assert r[b] == s[if b < i then b else b + 1];
      }
      forall y | y in r ensures y in s && y != x {
        var k :| 0 <= k < |r| && r[k] == y;
        assert r[k] == s[if k < i then k else k + 1];
      }
      forall y | y in s && y != x ensures y in r {
        var k :| 0 <= k < |s| && s[k] == y;
        assert k != i;
        assert r[if k < i then k else k - 1] == y;
      }
    }
  }

  /** Concatenation is associative. */
  lemma AppendAssoc<T>(a: seq<T>, b: seq<T>, c: seq<T>)
    ensures a + (b + c) == (a + b) + c
  {
  }

  /** Removing the head of a list leaves its tail. */
  lemma RemoveFirstHead<T>(s: seq<T>)
    requires |s| > 0
    ensures RemoveFirst(s, s[0]) == s[1..]
  {
    assert IndexOf(s, s[0]) == 0;
  }

  /** Appending an absent element keeps a list duplicate-free. */
  lemma AppendFresh<T>(s: seq<T>, x: T)
    requires NoDuplicates(s) && x !in s
    ensures NoDuplicates(s + [x])
  {
  }

  /** The distinct elements of a list. */
  ghost function Elems<T>(s: seq<T>): set<T> {
    set x | x in s
  }

  /** `ObservableCollection<T>.Move`: the item at `from` is taken out and
      inserted again at `to`. */
  function Move<T>(s: seq<T>, from: nat, to: nat): (r: seq<T>)
    requires from < |s| && to < |s|
    ensures |r| == |s| && r[to] == s[from]
    ensures multiset(r) == multiset(s)
    ensures to <= from ==> r[..to] == s[..to]
  {
    var rest := s[..from] + s[from + 1..];
    assert s == s[..from] + [s[from]] + s[from + 1..];
    assert rest == rest[..to] + rest[to..];
    assert to <= from ==> rest[..to] == s[..to];
    assert multiset(s) == multiset(s[..from]) + multiset{s[from]} + multiset(s[from + 1..]);
    assert multiset(rest) == multiset(s[..from]) + multiset(s[from + 1..]);
    assert multiset(rest) == multiset(rest[..to]) + multiset(rest[to..]);
    var moved := rest[..to] + [s[from]] + rest[to..];
    assert multiset(moved) == multiset(rest[..to]) + multiset{s[from]} + multiset(rest[to..]);
    assert multiset(moved) == multiset(rest) + multiset{s[from]};
    moved
  }

  /** In a duplicate-free list every element is counted once. */
  lemma {:induction false} NoDuplicatesCountOne<T>(s: seq<T>)
    requires NoDuplicates(s)
    ensures forall x :: multiset(s)[x] <= 1
  {
    if s != [] {
      assert s == [s[0]] + s[1..];
      assert NoDuplicates(s[1..]) by {
        forall a, b | 0 <= a < b < |s[1..]| ensures s[1..][a] != s[1..][b] {
          assert s[1..][a] == s[a + 1] && s[1..][b] == s[b + 1];
        }
      }
      assert s[0] !in s[1..] by {
        forall k | 0 <= k < |s[1..]| ensures s[1..][k] != s[0] {
          assert s[1..][k] == s[k + 1];
        }
      }
      NoDuplicatesCountOne(s[1..]);
      assert multiset(s) == multiset{s[0]} + multiset(s[1..]);
    }
  }

  /** An element that occurs twice is counted twice. */
  lemma DuplicateCountsTwice<T>(s: seq<T>)
    requires !NoDuplicates(s)
    ensures exists x :: multiset(s)[x] >= 2
  {
    var a, b :| 0 <= a < b < |s| && s[a] == s[b];
    assert s == s[..a] + [s[a]] + s[a + 1..b] + [s[b]] + s[b + 1..];
    assert multiset(s)[s[a]] >= 2;
  }

  /** Rearranging a duplicate-free list keeps it duplicate-free. */
  lemma PermutationNoDuplicates<T>(s: seq<T>, t: seq<T>)
    requires multiset(s) == multiset(t) && NoDuplicates(s)
    ensures NoDuplicates(t)
  {
    NoDuplicatesCountOne(s);
    if !NoDuplicates(t) {
      DuplicateCountsTwice(t);
    }
  }

  /** Rearranging a list keeps its elements. */
  lemma PermutationElems<T>(s: seq<T>, t: seq<T>)
    requires multiset(s) == multiset(t)
    ensures Elems(s) == Elems(t)
  {
    forall x ensures x in s <==> x in t {
      assert x in s <==> x in multiset(s);
      assert x in t <==> x in multiset(t);
    }
  }

  /** In a duplicate-free list nothing recurs later. */
  lemma NoDuplicatesLater<T>(s: seq<T>, k: nat)
    requires NoDuplicates(s) && k < |s|
    ensures s[k] !in s[k + 1..]
  {
  }

  /** Moving the element a target list wants next to the end of the
      agreeing prefix lengthens that prefix by one. */
  lemma MoveExtendsPrefix<T>(s: seq<T>, target: seq<T>, from: nat, to: nat)
    requires to <= from < |s| && to < |target|
    requires s[..to] == target[..to] && s[from] == target[to]
    ensures Move(s, from, to)[..to + 1] == target[..to + 1]
  {
    var r := Move(s, from, to);
    assert r[..to + 1] == r[..to] + [r[to]];
    assert target[..to + 1] == target[..to] + [target[to]];
  }
  /** The elements of a concatenation. */
  lemma ElemsAppend<T>(s: seq<T>, t: seq<T>)
    ensures Elems(s + t) == Elems(s) + Elems(t)
  {
  }

  /** Where the first occurrence lies in a concatenation. */
  lemma {:induction false} IndexOfAppend<T>(s: seq<T>, t: seq<T>, x: T)
    ensures x in s ==> IndexOf(s + t, x) == IndexOf(s, x)
    ensures x !in s && x in t ==> IndexOf(s + t, x) == |s| + IndexOf(t, x)
    ensures x !in s && x !in t ==> IndexOf(s + t, x) == -1
  {
    var i := IndexOf(s + t, x);
    if x in s {
      var j := IndexOf(s, x);
      assert (s + t)[j] == x;
      assert (s + t)[..j] == s[..j];
    } else if x in t {
      var j := IndexOf(t, x);
      assert (s + t)[|s| + j] == x;
      assert (s + t)[..|s| + j] == s + t[..j];
    }
  }
}
