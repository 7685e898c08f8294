/**
 * What "sorted" means for the merge sort, and a reference result to compare
 * the in-place routines against: a functional insertion sort.
 */
module SortSpec {

  /** Ascending order: an element never exceeds one that comes after it. */
  predicate Sorted(s: seq<int>) {
    forall i, j :: 0 <= i < j < |s| ==> s[i] <= s[j]
  }

  /** Ascending order as the driver checks it: no element is smaller than its predecessor. */
  predicate AdjacentOrdered(s: seq<int>) {
    forall i :: 0 <= i < |s| - 1 ==> s[i] <= s[i + 1]
  }

  /** Checking neighbours is enough: the driver's check means Sorted. */
  lemma {:induction false} AdjacentOrderedIffSorted(s: seq<int>)
    ensures AdjacentOrdered(s) <==> Sorted(s)
  {
    if AdjacentOrdered(s) && |s| > 1 {
      AdjacentOrderedIffSorted(s[1..]);
      assert AdjacentOrdered(s[1..]) by {
        forall i | 0 <= i < |s| - 2 ensures s[1..][i] <= s[1..][i + 1] {
          assert s[1..][i] == s[i + 1] && s[1..][i + 1] == s[i + 2];
        }
      }
      forall i, j | 0 <= i < j < |s| ensures s[i] <= s[j] {
        if i == 0 {
          assert s[0] <= s[1];
          if j > 1 { assert s[1..][0] <= s[1..][j - 1]; }
        } else {
          assert s[1..][i - 1] <= s[1..][j - 1];
        }
      }
    }
  }

  /** Dropping the first element keeps a sequence sorted. */
  lemma SortedTail(s: seq<int>)
    requires Sorted(s) && s != []
    ensures Sorted(s[1..])
  {
    forall i, j | 0 <= i < j < |s| - 1 ensures s[1..][i] <= s[1..][j] {
      assert s[1..][i] == s[i + 1] && s[1..][j] == s[j + 1];
    }
  }

  /**
   * Puts x into s just before the first element greater than x, which in a
   * sorted s is after every element not greater than x: where the shifting
   * loop of the insertion sort drops it.
   */
  function Insert(s: seq<int>, x: int): (r: seq<int>)
    ensures |r| == |s| + 1
  {
    if s == [] || x < s[0] then [x] + s
    else [s[0]] + Insert(s[1..], x)
  }

  /**
   * The reference sort: insert the elements one by one, left to right, into a
   * growing sorted prefix.
   */
  function Sort(s: seq<int>): (r: seq<int>)
    ensures |r| == |s|
  {
    if s == [] then []
    else Insert(Sort(s[..|s| - 1]), s[|s| - 1])
  }

  /** Inserting adds exactly x to the elements. */
  lemma {:induction false} InsertPermutation(s: seq<int>, x: int)
    ensures multiset(Insert(s, x)) == multiset(s) + multiset{x}
  {
    if s != [] && !(x < s[0]) {
      InsertPermutation(s[1..], x);
      assert s == [s[0]] + s[1..];
    }
  }

  /** Inserting into a sorted sequence keeps it sorted. */
  lemma {:induction false} InsertSorted(s: seq<int>, x: int)
    requires Sorted(s)
    ensures Sorted(Insert(s, x))
  {
    if s != [] && !(x < s[0]) {
      var tail := s[1..];
      SortedTail(s);
      InsertSorted(tail, x);
      var rest := Insert(tail, x);
      assert rest[0] == x || (tail != [] && rest[0] == tail[0]);
      InsertPermutation(tail, x);
      SortedCons(s[0], rest);
    } else {
      SortedCons(x, s);
    }
  }

  /** Prepending an element no greater than the head keeps a sequence sorted. */
  lemma SortedCons(x: int, s: seq<int>)
    requires Sorted(s)
    requires s != [] ==> x <= s[0]
    ensures Sorted([x] + s)
  {
    forall i, j | 0 <= i < j < |s| + 1 ensures ([x] + s)[i] <= ([x] + s)[j] {
      if i == 0 {
        assert ([x] + s)[j] == s[j - 1] && s[0] <= s[j - 1];
      } else {
        assert ([x] + s)[i] == s[i - 1] && ([x] + s)[j] == s[j - 1];
      }
    }
  }

  /** The reference sort returns a sorted permutation of its input. */
  lemma {:induction false} SortIsSortedPermutation(s: seq<int>)
    ensures Sorted(Sort(s))
    ensures multiset(Sort(s)) == multiset(s)
  {
    if s != [] {
      var init, last := s[..|s| - 1], s[|s| - 1];
      SortIsSortedPermutation(init);
      InsertSorted(Sort(init), last);
      InsertPermutation(Sort(init), last);
      assert s == init + [last];
    }
  }

  /** Two sorted sequences holding the same elements are equal. */
  lemma {:induction false} SortedUnique(r: seq<int>, t: seq<int>)
    requires Sorted(r) && Sorted(t)
    requires multiset(r) == multiset(t)
    ensures r == t
  {
    if r == [] {
      assert |t| == |multiset(t)| == 0;
    } else {
      assert |t| == |multiset(t)| == |r|;
      assert r[0] in multiset(t);
      var k :| 0 <= k < |t| && t[k] == r[0];
      assert t[0] <= t[k];
      assert t[0] in multiset(r);
      var m :| 0 <= m < |r| && r[m] == t[0];
      assert r[0] <= r[m];
      assert r[0] == t[0];
      var r', t' := r[1..], t[1..];
      assert r == [r[0]] + r';
      assert t == [t[0]] + t';
      assert multiset(r) == multiset{r[0]} + multiset(r');
      assert multiset(t) == multiset{r[0]} + multiset(t');
      assert multiset(r') == multiset(r) - multiset{r[0]};
      assert multiset(t') == multiset(t) - multiset{r[0]};
      SortedTail(r);
      SortedTail(t);
      SortedUnique(r', t');
    }
  }

  /** Sort(s) is the one and only sorted permutation of s. */
  lemma SortCharacterized(s: seq<int>, r: seq<int>)
    ensures (Sorted(r) && multiset(r) == multiset(s)) <==> r == Sort(s)
  {
    SortIsSortedPermutation(s);
    if Sorted(r) && multiset(r) == multiset(s) {
      SortedUnique(r, Sort(s));
    }
  }

  /**
   * Inserting into a sorted sequence lands x at the position m that splits the
   * elements not greater than x from those greater than x.
   */
  lemma {:induction false} InsertSplit(s: seq<int>, x: int, m: nat)
    requires Sorted(s) && m <= |s|
    requires m > 0 ==> s[m - 1] <= x
    requires m < |s| ==> x < s[m]
    ensures Insert(s, x) == s[..m] + [x] + s[m..]
  {
    if m == 0 {
      assert s[m..] == s;
    } else {
      assert s[0] <= s[m - 1];
      var tail := s[1..];
      SortedTail(s);
      assert m - 1 > 0 ==> tail[m - 2] == s[m - 1];
      assert m - 1 < |tail| ==> tail[m - 1] == s[m];
      InsertSplit(tail, x, m - 1);
      ConsSplit(s, x, m);
    }
  }

  /**
   * What one pass of the insertion sort's shifting loop leaves behind: r is
   * the sorted s with x dropped at the position m that splits the elements
   * not greater than x from those greater than x. Then r is the insertion of
   * x into s.
   */
  lemma InsertPlaced(s: seq<int>, x: int, m: nat, r: seq<int>)
    requires Sorted(s) && m <= |s|
    requires m > 0 ==> s[m - 1] <= x
    requires m < |s| ==> x < s[m]
    requires |r| == |s| + 1 && r[m] == x
    requires forall k :: 0 <= k < m ==> r[k] == s[k]
    requires forall k :: m <= k < |s| ==> r[k + 1] == s[k]
    ensures r == Insert(s, x)
  {
    InsertedAt(s, x, m, r);
    InsertSplit(s, x, m);
  }

  /** The cells of r spell out s with x put in at position m. */
  lemma InsertedAt(s: seq<int>, x: int, m: nat, r: seq<int>)
    requires m <= |s|
    requires |r| == |s| + 1 && r[m] == x
    requires forall k :: 0 <= k < m ==> r[k] == s[k]
    requires forall k :: m <= k < |s| ==> r[k + 1] == s[k]
    ensures r == s[..m] + [x] + s[m..]
  {
    forall k | 0 <= k < |r| ensures r[k] == (s[..m] + [x] + s[m..])[k] {
      if k > m {
        assert r[(k - 1) + 1] == s[k - 1];
      }
    }
  }

  /** Sequence bookkeeping for InsertSplit: splitting the tail at m - 1 is splitting s at m. */
  lemma ConsSplit(s: seq<int>, x: int, m: nat)
    requires 0 < m <= |s|
    ensures [s[0]] + (s[1..][..m - 1] + [x] + s[1..][m - 1..]) == s[..m] + [x] + s[m..]
  {
    assert s[1..][..m - 1] == s[1..m];
    assert s[1..][m - 1..] == s[m..];
    assert s[..m] == [s[0]] + s[1..m];
  }
}
