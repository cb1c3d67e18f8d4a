/** The key order behind `TreeNode.Sort` and `TreeNode.SortByDescending`:
    `OrderBy(o => o.Header)` and `OrderByDescending(o => o.Header)`, over
    headers compared character by character (ordinal order). */
module HeaderOrder {

  /** Ordinal order: `a` is a proper prefix of `b`, or at the first position
      where they differ `a` has the smaller character. */
  predicate Less(a: string, b: string)
    decreases |a|
  {
    if a == [] then b != []
    else b != [] && (a[0] < b[0] || (a[0] == b[0] && Less(a[1..], b[1..])))
  }

  /** No string comes before itself. */
  lemma {:induction false} LessIrreflexive(a: string)
    ensures !Less(a, a)
  {
    if a != [] {
      LessIrreflexive(a[1..]);
    }
  }

  /** Any two different strings are ordered one way or the other. */
  lemma {:induction false} LessTotal(a: string, b: string)
    ensures a == b || Less(a, b) || Less(b, a)
  {
    if a != [] && b != [] && a[0] == b[0] {
      LessTotal(a[1..], b[1..]);
      if a[1..] == b[1..] {
        assert a == [a[0]] + a[1..] && b == [b[0]] + b[1..];
      }
    }
  }

  /** The order is transitive. */
  lemma {:induction false} LessTransitive(a: string, b: string, c: string)
    requires Less(a, b) && Less(b, c)
    ensures Less(a, c)
  {
    if a != [] && a[0] == b[0] && b[0] == c[0] {
      LessTransitive(a[1..], b[1..], c[1..]);
    }
  }

  /** The order is asymmetric. */
  lemma LessAsymmetric(a: string, b: string)
    requires Less(a, b)
    ensures !Less(b, a)
  {
    if Less(b, a) {
      LessTransitive(a, b, a);
      LessIrreflexive(a);
    }
  }

  /** Key `a` goes strictly before key `b` in the requested direction. */
  predicate Precedes(a: string, b: string, descending: bool) {
    if descending then Less(b, a) else Less(a, b)
  }

  /** Every element has a key. */
  ghost predicate Keyed<T>(s: seq<T>, key: map<T, string>) {
    forall i :: 0 <= i < |s| ==> s[i] in key
  }

  /** No later element's key precedes an earlier one's. */
  ghost predicate Sorted<T>(s: seq<T>, key: map<T, string>, descending: bool)
    requires Keyed(s, key)
  {
    forall i, j :: 0 <= i < j < |s| ==> !Precedes(key[s[j]], key[s[i]], descending)
  }

  /** Inserts `x` after every element whose key it does not strictly
      precede. */
  function Insert<T>(s: seq<T>, x: T, key: map<T, string>, descending: bool): (r: seq<T>)
    requires Keyed(s, key) && x in key
    ensures multiset(r) == multiset(s) + multiset{x}
    ensures Keyed(r, key)
    ensures Sorted(s, key, descending) ==> Sorted(r, key, descending)
  {
    if s == [] then [x]
    else if Precedes(key[x], key[s[0]], descending) then
      PrecedesBeforeSorted(s, x, key, descending);
      [x] + s
    else
      var t := Insert(s[1..], x, key, descending);
      var r := [s[0]] + t;
      assert s == [s[0]] + s[1..];
      InsertHead(s, x, t, key, descending);
      r
  }

  /** When `x`'s key precedes the head of a sorted run, no element of the run
      precedes `x`. */
  lemma PrecedesBeforeSorted<T>(s: seq<T>, x: T, key: map<T, string>, descending: bool)
    requires Keyed(s, key) && x in key
    requires s != [] && Precedes(key[x], key[s[0]], descending)
    ensures Keyed([x] + s, key)
    ensures Sorted(s, key, descending) ==> Sorted([x] + s, key, descending)
  {
    if Sorted(s, key, descending) {
      forall j | 0 < j < |[x] + s|
        ensures !Precedes(key[([x] + s)[j]], key[x], descending)
      {
        var y := s[j - 1];
        if Precedes(key[y], key[x], descending) {
          if j - 1 == 0 {
            LessAsymmetric(key[x], key[y]);
          } else {
            assert !Precedes(key[y], key[s[0]], descending);
            if descending {
              LessTransitive(key[s[0]], key[x], key[y]);
            } else {
              LessTransitive(key[y], key[x], key[s[0]]);
            }
          }
        }
      }
    }
  }

  /** Keeping the head of a sorted run in front of the insertion keeps the
      result sorted. */
  lemma InsertHead<T>(s: seq<T>, x: T, t: seq<T>, key: map<T, string>, descending: bool)
    requires Keyed(s, key) && Keyed(t, key) && x in key
    requires s != [] && !Precedes(key[x], key[s[0]], descending)
    requires multiset(t) == multiset(s[1..]) + multiset{x}
    ensures Keyed([s[0]] + t, key)
    ensures Sorted(s, key, descending) && Sorted(t, key, descending) ==> Sorted([s[0]] + t, key, descending)
  {
    if !(Sorted(s, key, descending) && Sorted(t, key, descending)) {
      return;
    }
    forall j | 0 <= j < |t| ensures !Precedes(key[t[j]], key[s[0]], descending) {
      assert t[j] in multiset(t);
      if t[j] != x {
        assert t[j] in multiset(s[1..]);
        var k :| 0 <= k < |s[1..]| && s[1..][k] == t[j];
        assert s[k + 1] == t[j];
      }
    }
  }

  /** `OrderBy` / `OrderByDescending` on the keys, as an insertion sort. */
  function SortBy<T>(s: seq<T>, key: map<T, string>, descending: bool): (r: seq<T>)
    requires Keyed(s, key)
    ensures multiset(r) == multiset(s)
    ensures Keyed(r, key)
    ensures Sorted(r, key, descending)
  {
    if s == [] then []
    else
      assert s == s[..|s| - 1] + [s[|s| - 1]];
      Insert(SortBy(s[..|s| - 1], key, descending), s[|s| - 1], key, descending)
  }
}
