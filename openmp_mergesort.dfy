/**
 * The in-place sorting routines of the parallel merge sort. A C pointer into
 * an array becomes the array together with an offset (`lo` in `a`, `tlo` in
 * the scratch buffer `temp`); every routine touches `size` cells from there.
 * The reference result is SortSpec.Sort, the unique sorted permutation.
 */
module OpenmpMergesort {
  import opened SortSpec
  import opened MergeSpec
  import opened Fork
  import opened Segments

  /** Ranges of at most this many elements are sorted by insertion. */
  const SMALL: nat := 32

  /**
   * Sorts a[lo..lo+size) in place, growing a sorted prefix one element at a
   * time from the left.
   */
  method InsertionSort(a: array<int>, lo: nat, size: nat)
    requires lo + size <= a.Length
    modifies a
    ensures a[..] == Splice(old(a[..]), lo, size, Sort(Segment(old(a[..]), lo, size)))
  {
    ghost var A0 := a[..];
    assert A0 == Splice(A0, lo, 0, Sort(Segment(A0, lo, 0)));
    var i := 0;
    while i < size
      invariant 0 <= i <= size
      invariant a[..] == Splice(A0, lo, i, Sort(Segment(A0, lo, i)))
    {
      InsertionStep(A0, a[..], lo, i, i + 1);
      InsertNext(a, lo, i);
      i := i + 1;
    }
  }

  /**
   * One pass of the outer loop as a whole-array step: with the first i cells
   * of the range holding the sorted first i originals and the rest untouched,
   * that prefix is sorted, and inserting the next original into it gives the
   * sorted first j = i + 1 originals.
   */
  lemma InsertionStep(A0: seq<int>, A1: seq<int>, lo: nat, i: nat, j: nat)
    requires j == i + 1 && lo + j <= |A0|
    requires A1 == Splice(A0, lo, i, Sort(Segment(A0, lo, i)))
    ensures Sorted(Segment(A1, lo, i))
    ensures Splice(A1, lo, i + 1, Insert(Segment(A1, lo, i), A1[lo + i])) == Splice(A0, lo, j, Sort(Segment(A0, lo, j)))
  {
    SortIsSortedPermutation(Segment(A0, lo, i));
    SpliceSlice(A0, lo, i, Sort(Segment(A0, lo, i)));
    assert A1[lo + i] == A0[lo + i];
    var S := Segment(A0, lo, j);
    assert S[..i] == Segment(A0, lo, i);
    assert S[i] == A0[lo + i];
    assert SameOutside(A1, A0, lo, j);
    SpliceOutside(A1, A0, lo, j, Sort(S));
  }

  /**
   * One pass of the insertion sort's outer loop: with a[lo..lo+i) sorted, the
   * element v = a[lo+i] is held while the strictly greater elements before it
   * move one cell right, and is then dropped into the gap.
   */
  method InsertNext(a: array<int>, lo: nat, i: nat)
    requires lo + i < a.Length
    requires Sorted(Segment(a[..], lo, i))
    modifies a
    ensures a[..] == Splice(old(a[..]), lo, i + 1, Insert(Segment(old(a[..]), lo, i), old(a[lo + i])))
  {
    ghost var P := Segment(a[..], lo, i);
    var v := a[lo + i];
    var j := i - 1;
    while j >= 0
      invariant -1 <= j < i
      invariant forall k :: 0 <= k < a.Length && !(lo <= k <= lo + i) ==> a[k] == old(a[k])
      invariant forall k :: 0 <= k <= j ==> a[lo + k] == P[k]
      invariant forall k :: j + 1 <= k < i ==> a[lo + k + 1] == P[k]
      invariant forall k :: j + 1 <= k < i ==> v < P[k]
    {
      if a[lo + j] <= v {
        break;
      }
      a[lo + j + 1] := a[lo + j];
      j := j - 1;
    }
    a[lo + j + 1] := v;
    DroppedIn(a[..], old(a[..]), lo, i, j + 1, P);
  }

  /**
   * The array after the shifting loop and the final write: below the gap m
   * the sorted prefix P is untouched, from the gap on its elements sit one
   * cell further right, the held element is in the gap, and nothing outside
   * [lo, lo+i] has moved. That is the insertion of the held element into P.
   */
  lemma DroppedIn(A1: seq<int>, A0: seq<int>, lo: nat, i: nat, m: nat, P: seq<int>)
    requires lo + i < |A0| && m <= i && P == Segment(A0, lo, i) && Sorted(P)
    requires SameOutside(A1, A0, lo, i + 1)
    requires forall k :: 0 <= k < m ==> A1[lo + k] == P[k]
    requires forall k :: m <= k < i ==> A1[lo + k + 1] == P[k]
    requires forall k :: m <= k < i ==> A0[lo + i] < P[k]
    requires m > 0 ==> P[m - 1] <= A0[lo + i]
    requires A1[lo + m] == A0[lo + i]
    ensures A1 == Splice(A0, lo, i + 1, Insert(P, A0[lo + i]))
  {
    var r := Segment(A1, lo, i + 1);
    InsertPlaced(P, A0[lo + i], m, r);
    SpliceIntro(A1, A0, lo, i + 1, Insert(P, A0[lo + i]));
  }

  /**
   * Merges a[lo..lo+size/2) and a[lo+size/2..lo+size) through
   * temp[tlo..tlo+size), then copies the result back over a. The three cursor
   * loops (i1 in the left half, i2 in the right half, ti in temp) are the
   * three methods below, run one after the other.
   */
  method Merge(a: array<int>, lo: nat, size: nat, temp: array<int>, tlo: nat)
    requires a != temp
    requires lo + size <= a.Length && tlo + size <= temp.Length
    modifies a, temp
    ensures a[..] == Splice(old(a[..]), lo, size, MergedHalves(Segment(old(a[..]), lo, size)))
    ensures SameOutside(temp[..], old(temp[..]), tlo, size)
    ensures Segment(temp[..], tlo, size) == Segment(a[..], lo, size)
  {
    var mid := size / 2;
    ghost var A := a[..];
    ghost var L, R := Segment(A, lo, mid), Segment(A, lo + mid, size - mid);
    MergeIntoTemp(a, lo, size, temp, tlo, L, R);
    Copy(temp, tlo, a, lo, size);
    SpliceSlice(A, lo, size, Merged(L, R));
    MergedSegmentHalves(A, lo, size, mid);
  }

  /**
   * The three cursor loops of the merge, one after the other: they write the
   * merge of the halves L and R of a[lo..lo+size) to temp[tlo..tlo+size).
   */
  method MergeIntoTemp(a: array<int>, lo: nat, size: nat, temp: array<int>, tlo: nat,
                       ghost L: seq<int>, ghost R: seq<int>)
    requires a != temp
    requires lo + size <= a.Length && tlo + size <= temp.Length
    requires |L| == size / 2 && |R| == size - size / 2
    requires forall k :: 0 <= k < |L| ==> a[lo + k] == L[k]
    requires forall k :: 0 <= k < |R| ==> a[lo + size / 2 + k] == R[k]
    modifies temp
    ensures SameOutside(temp[..], old(temp[..]), tlo, size)
    ensures Segment(temp[..], tlo, size) == Merged(L, R)
  {
    ghost var M := Merged(L, R);
    MergeFromMerged(M, 0, L, R, 0, 0);
    var i1, i2, ti := MergeRuns(a, lo, size, temp, tlo, L, R, M);
    ti := CopyLeftRest(a, lo, size, temp, tlo, L, R, M, i1, i2, ti);
    CopyRightRest(a, lo, size, temp, tlo, L, R, M, i2, ti);
    assert Segment(temp[..], tlo, size) == M;
  }

  /**
   * With Merge's contract, the merge leaves a range element for element as it
   * was when its sorted halves are already in order across the cut.
   */
  lemma MergeOfOrderedRange(A: seq<int>, lo: nat, size: nat)
    requires lo + size <= |A|
    requires Sorted(Segment(A, lo, size / 2)) && Sorted(Segment(A, lo + size / 2, size - size / 2))
    requires 0 < size / 2 < size ==> A[lo + size / 2 - 1] <= A[lo + size / 2]
    ensures Splice(A, lo, size, MergedHalves(Segment(A, lo, size))) == A
  {
    var S := Segment(A, lo, size);
    SegmentSplit(A, lo, size / 2, size, lo + size / 2, size - size / 2);
    MergedHalvesOrdered(S);
    SpliceIntro(A, A, lo, size, S);
  }

  /** MergedHalves of a segment is the merge of its two half segments. */
  lemma MergedSegmentHalves(A: seq<int>, lo: nat, size: nat, mid: nat)
    requires lo + size <= |A| && mid == size / 2
    ensures MergedHalves(Segment(A, lo, size)) == Merged(Segment(A, lo, mid), Segment(A, lo + mid, size - mid))
  {
    SegmentSplit(A, lo, mid, size, lo + mid, size - mid);
    MergedHalvesSplit(Segment(A, lo, size), mid);
  }

  /**
   * The first cursor loop of the merge: while both halves have elements
   * left, writes the strictly smaller head (the right one on a tie) to
   * temp[tlo+ti]. L and R are the two halves of a and M their merge.
   */
  method MergeRuns(a: array<int>, lo: nat, size: nat, temp: array<int>, tlo: nat,
                   ghost L: seq<int>, ghost R: seq<int>, ghost M: seq<int>)
    returns (i1: nat, i2: nat, ti: nat)
    requires a != temp
    requires lo + size <= a.Length && tlo + size <= temp.Length
    requires |L| == size / 2 && |R| == size - size / 2 && |M| == size
    requires forall k :: 0 <= k < |L| ==> a[lo + k] == L[k]
    requires forall k :: 0 <= k < |R| ==> a[lo + size / 2 + k] == R[k]
    requires MergeFrom(M, 0, L, R, 0, 0)
    modifies temp
    ensures i1 <= size / 2 <= i2 <= size && ti == i1 + (i2 - size / 2)
    ensures i1 == size / 2 || i2 == size
    ensures forall k :: 0 <= k < tlo ==> temp[k] == old(temp[k])
    ensures forall k :: tlo + size <= k < temp.Length ==> temp[k] == old(temp[k])
    ensures forall k :: 0 <= k < ti ==> temp[tlo + k] == M[k]
    ensures MergeFrom(M, ti, L, R, i1, i2 - size / 2)
  {
    var mid := size / 2;
    i1, i2, ti := 0, mid, 0;
    while i1 < mid && i2 < size
      invariant 0 <= i1 <= mid <= i2 <= size
      invariant ti == i1 + (i2 - mid)
      invariant forall k :: 0 <= k < tlo ==> temp[k] == old(temp[k])
      invariant forall k :: tlo + size <= k < temp.Length ==> temp[k] == old(temp[k])
      invariant forall k :: 0 <= k < ti ==> temp[tlo + k] == M[k]
      invariant MergeFrom(M, ti, L, R, i1, i2 - mid)
    {
      if a[lo + i1] < a[lo + i2] {
        temp[tlo + ti] := a[lo + i1];
        i1 := i1 + 1;
      } else {
        temp[tlo + ti] := a[lo + i2];
        i2 := i2 + 1;
      }
      ti := ti + 1;
    }
  }

  /** The second cursor loop: copies what is left of the left half. */
  method CopyLeftRest(a: array<int>, lo: nat, size: nat, temp: array<int>, tlo: nat,
                      ghost L: seq<int>, ghost R: seq<int>, ghost M: seq<int>, i1: nat, i2: nat, ti: nat)
    returns (ti': nat)
    requires a != temp
    requires lo + size <= a.Length && tlo + size <= temp.Length
    requires |L| == size / 2 && |R| == size - size / 2 && |M| == size
    requires forall k :: 0 <= k < |L| ==> a[lo + k] == L[k]
    requires i1 <= size / 2 <= i2 <= size && ti == i1 + (i2 - size / 2)
    requires i1 == size / 2 || i2 == size
    requires forall k :: 0 <= k < ti ==> temp[tlo + k] == M[k]
    requires MergeFrom(M, ti, L, R, i1, i2 - size / 2)
    modifies temp
    ensures ti' == i2
    ensures forall k :: 0 <= k < tlo ==> temp[k] == old(temp[k])
    ensures forall k :: tlo + size <= k < temp.Length ==> temp[k] == old(temp[k])
    ensures forall k :: 0 <= k < ti' ==> temp[tlo + k] == M[k]
    ensures MergeFrom(M, ti', L, R, size / 2, i2 - size / 2)
  {
    var mid := size / 2;
    var i := i1;
    ti' := ti;
    while i < mid
      invariant i1 <= i <= mid
      invariant i < mid ==> i2 == size
      invariant ti' == i + (i2 - mid)
      invariant forall k :: 0 <= k < tlo ==> temp[k] == old(temp[k])
      invariant forall k :: tlo + size <= k < temp.Length ==> temp[k] == old(temp[k])
      invariant forall k :: 0 <= k < ti' ==> temp[tlo + k] == M[k]
      invariant MergeFrom(M, ti', L, R, i, i2 - mid)
    {
      temp[tlo + ti'] := a[lo + i];
      i := i + 1;
      ti' := ti' + 1;
    }
  }

  /** The third cursor loop: copies what is left of the right half. */
  method CopyRightRest(a: array<int>, lo: nat, size: nat, temp: array<int>, tlo: nat,
                       ghost L: seq<int>, ghost R: seq<int>, ghost M: seq<int>, i2: nat, ti: nat)
    requires a != temp
    requires lo + size <= a.Length && tlo + size <= temp.Length
    requires |L| == size / 2 && |R| == size - size / 2 && |M| == size
    requires forall k :: 0 <= k < |R| ==> a[lo + size / 2 + k] == R[k]
    requires size / 2 <= i2 <= size && ti == i2
    requires forall k :: 0 <= k < ti ==> temp[tlo + k] == M[k]
    requires MergeFrom(M, ti, L, R, size / 2, i2 - size / 2)
    modifies temp
    ensures forall k :: 0 <= k < tlo ==> temp[k] == old(temp[k])
    ensures forall k :: tlo + size <= k < temp.Length ==> temp[k] == old(temp[k])
    ensures forall k :: 0 <= k < size ==> temp[tlo + k] == M[k]
  {
    var mid := size / 2;
    var i := i2;
    var t := ti;
    while i < size
      invariant i2 <= i <= size && t == i
      invariant forall k :: 0 <= k < tlo ==> temp[k] == old(temp[k])
      invariant forall k :: tlo + size <= k < temp.Length ==> temp[k] == old(temp[k])
      invariant forall k :: 0 <= k < t ==> temp[tlo + k] == M[k]
      invariant MergeFrom(M, t, L, R, mid, i - mid)
    {
      temp[tlo + t] := a[lo + i];
      i := i + 1;
      t := t + 1;
    }
  }

  /** The memcpy of the merge: n cells from src at slo over dst at dlo. */
  method Copy(src: array<int>, slo: nat, dst: array<int>, dlo: nat, n: nat)
    requires src != dst
    requires slo + n <= src.Length && dlo + n <= dst.Length
    modifies dst
    ensures dst[..] == Splice(old(dst[..]), dlo, n, Segment(old(src[..]), slo, n))
  {
    forall k | 0 <= k < n {
      dst[dlo + k] := src[slo + k];
    }
    SpliceIntro(dst[..], old(dst[..]), dlo, n, Segment(src[..], slo, n));
  }

  /**
   * Sequential hybrid sort of a[lo..lo+size): insertion sort up to SMALL
   * elements, otherwise both halves recursively and a merge. Both halves use
   * the scratch buffer from the same offset `tlo`.
   */
  method MergesortSerial(a: array<int>, lo: nat, size: nat, temp: array<int>, tlo: nat)
    requires a != temp
    requires lo + size <= a.Length && tlo + size <= temp.Length
    modifies a, temp
    decreases size
    ensures a[..] == Splice(old(a[..]), lo, size, Sort(Segment(old(a[..]), lo, size)))
    ensures SameOutside(temp[..], old(temp[..]), tlo, size)
    ensures size <= SMALL ==> unchanged(temp)
    ensures size > SMALL ==> Segment(temp[..], tlo, size) == Segment(a[..], lo, size)
  {
    if size <= SMALL {
      InsertionSort(a, lo, size);
      return;
    }
    var half := size / 2;
    ghost var A0, T0 := a[..], temp[..];
    MergesortSerial(a, lo, half, temp, tlo);
    ghost var A1, T1 := a[..], temp[..];
    var rlo, rsize := lo + half, size - half;
    MergesortSerial(a, rlo, rsize, temp, tlo);
    ghost var A2, T2 := a[..], temp[..];
    SortStep(A0, A1, A2, lo, half, size, rlo, rsize);
    Merge(a, lo, size, temp, tlo);
  }

  /**
   * The step both drivers share: once a[lo..lo+half) and then
   * a[lo+half..lo+size) have been sorted, merging the two halves in place
   * sorts the whole range and leaves every other cell as it was before the
   * two sorts. A0 to A2 are the whole array before and after each sort.
   */
  lemma SortStep(A0: seq<int>, A1: seq<int>, A2: seq<int>, lo: nat, half: nat, size: nat, rlo: nat, rsize: nat)
    requires half == size / 2 && lo + size <= |A0| && rlo == lo + half && rsize == size - half
    requires A1 == Splice(A0, lo, half, Sort(Segment(A0, lo, half)))
    requires A2 == Splice(A1, rlo, rsize, Sort(Segment(A1, rlo, rsize)))
    ensures Splice(A2, lo, size, MergedHalves(Segment(A2, lo, size))) == Splice(A0, lo, size, Sort(Segment(A0, lo, size)))
  {
    var L, R := Sort(Segment(A0, lo, half)), Sort(Segment(A1, rlo, rsize));
    var M := MergedHalves(Segment(A2, lo, size));
    SpliceStep(A0, A1, A2, Splice(A2, lo, size, M), lo, half, size, rlo, rsize, L, R, M);
    SegmentSplit(A2, lo, half, size, rlo, rsize);
    MergedHalvesSplit(Segment(A2, lo, size), half);
    SegmentSplit(A0, lo, half, size, rlo, rsize);
    MergeOfSortedHalves(Segment(A0, lo, size), half);
  }

  /**
   * The two sections of the fork may run in either order: sorting the left
   * half and then the right half leaves the same array as sorting the right
   * half and then the left one, because each reads and writes only its own
   * cells. A0 is the whole array before the fork.
   */
  lemma SectionsCommute(A0: seq<int>, lo: nat, half: nat, rlo: nat, rsize: nat)
    requires rlo == lo + half && rlo + rsize <= |A0|
    ensures var L := Splice(A0, lo, half, Sort(Segment(A0, lo, half)));
            var R := Splice(A0, rlo, rsize, Sort(Segment(A0, rlo, rsize)));
            Splice(L, rlo, rsize, Sort(Segment(L, rlo, rsize))) == Splice(R, lo, half, Sort(Segment(R, lo, half)))
  {
    SpliceDisjoint(A0, lo, half, rlo, rsize, Sort(Segment(A0, lo, half)), Sort(Segment(A0, rlo, rsize)));
  }

  /**
   * The budgeted fork-join driver. A budget of one thread sorts serially; a
   * larger budget is shared between the two halves, which are sorted (the two
   * sections of the fork, on disjoint cells of `a` and of `temp`, composed one
   * after the other) and then merged; a budget below one changes nothing.
   * The ghost result `leaves` counts the serial sorts the call starts.
   */
  method MergesortParallel(a: array<int>, lo: nat, size: nat, temp: array<int>, tlo: nat, threads: int)
    returns (ghost leaves: nat)
    requires a != temp
    requires lo + size <= a.Length && tlo + size <= temp.Length
    modifies a, temp
    decreases threads
    ensures threads >= 1 ==> a[..] == Splice(old(a[..]), lo, size, Sort(Segment(old(a[..]), lo, size)))
    ensures SameOutside(temp[..], old(temp[..]), tlo, size)
    ensures threads < 1 ==> unchanged(a) && unchanged(temp)
    ensures threads == 1 && size <= SMALL ==> unchanged(temp)
    ensures (threads > 1 || (threads == 1 && size > SMALL)) ==> Segment(temp[..], tlo, size) == Segment(a[..], lo, size)
    ensures leaves == SerialLeaves(threads)
    ensures threads >= 1 ==> leaves == threads
  {
    if threads == 1 {
      MergesortSerial(a, lo, size, temp, tlo);
      leaves := 1;
    } else if threads > 1 {
      var (left, right) := Halves(Range(lo, size));
      var (scratchLeft, scratchRight) := Halves(Range(tlo, size));
      var (leftThreads, rightThreads) := SplitBudget(threads);
      ghost var A0, T0 := a[..], temp[..];
      ghost var leftLeaves := MergesortParallel(a, left.lo, left.len, temp, scratchLeft.lo, leftThreads);
      ghost var A1, T1 := a[..], temp[..];
      ghost var rightLeaves := MergesortParallel(a, right.lo, right.len, temp, scratchRight.lo, rightThreads);
      leaves := leftLeaves + rightLeaves;
      SerialLeavesEqualBudget(threads);
      ghost var A2, T2 := a[..], temp[..];
      SortStep(A0, A1, A2, lo, left.len, size, right.lo, right.len);
      Merge(a, lo, size, temp, tlo);
    } else {
      // the C routine prints the bad thread count and returns (line 134)
      leaves := 0;
    }
  }

  /** Entry point: sorts the first `size` cells of `a` with `threads` threads. */
  method RunOmp(a: array<int>, size: nat, temp: array<int>, threads: int)
    requires a != temp
    requires size <= a.Length && size <= temp.Length
    modifies a, temp
    ensures a[size..] == old(a[size..])
    ensures threads >= 1 ==> a[..size] == Sort(old(a[..size]))
    ensures SameOutside(temp[..], old(temp[..]), 0, size)
    ensures threads < 1 ==> unchanged(a) && unchanged(temp)
  {
    ghost var A0 := a[..];
    ghost var leaves := MergesortParallel(a, 0, size, temp, 0, threads);
    if threads >= 1 {
      SortIsSortedPermutation(A0[..size]);
      SpliceSlice(A0, 0, size, Sort(A0[..size]));
      assert A0[0..0 + size] == A0[..size];
    }
  }

  /** The driver's order check over the first `size` cells. */
  method IsAscending(a: array<int>, size: nat) returns (ok: bool)
    requires size <= a.Length
    ensures ok <==> Sorted(a[..size])
  {
    var i := 1;
    while i < size
      invariant 1 <= i
      invariant i <= size || size == 0
      invariant forall k :: 0 <= k < i - 1 && k + 1 < size ==> a[k] <= a[k + 1]
    {
      if !(a[i - 1] <= a[i]) {
        assert !AdjacentOrdered(a[..size]) by {
          assert a[..size][i - 1] == a[i - 1] && a[..size][i] == a[i];
        }
        AdjacentOrderedIffSorted(a[..size]);
        return false;
      }
      i := i + 1;
    }
    assert AdjacentOrdered(a[..size]);
    AdjacentOrderedIffSorted(a[..size]);
    return true;
  }
}
