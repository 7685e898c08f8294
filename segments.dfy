/**
 * Whole-array views of the in-place routines: each routine rewrites one
 * contiguous range of a buffer and leaves every other cell alone.
 */
module Segments {

  /**
   * s with its n cells from lo on replaced by x: the whole array after a
   * routine that rewrites one range of it.
   */
  function Splice(s: seq<int>, lo: nat, n: nat, x: seq<int>): seq<int>
    requires lo + n <= |s|
  {
    s[..lo] + x + s[lo + n..]
  }

  /** The n cells of s from lo on. */
  function Segment(s: seq<int>, lo: nat, n: nat): seq<int>
    requires lo + n <= |s|
  {
    s[lo..lo + n]
  }

  /** t agrees with t0 everywhere except possibly in the n cells from lo. */
  predicate SameOutside(t: seq<int>, t0: seq<int>, lo: nat, n: nat) {
    |t| == |t0| && forall k :: 0 <= k < |t| && !(lo <= k < lo + n) ==> t[k] == t0[k]
  }

  /** The cells of s outside [lo, lo+n) are those of s0, and the cells inside spell x. */
  lemma SpliceIntro(s: seq<int>, s0: seq<int>, lo: nat, n: nat, x: seq<int>)
    requires lo + n <= |s| && |x| == n
    requires SameOutside(s, s0, lo, n)
    requires Segment(s, lo, n) == x
    ensures s == Splice(s0, lo, n, x)
  {
    forall k | 0 <= k < |s| ensures s[k] == Splice(s0, lo, n, x)[k] {
      if lo <= k < lo + n {
        assert s[k] == s[lo..lo + n][k - lo];
      }
    }
  }

  /** What a splice of n cells holds: x in its range, the old cells elsewhere. */
  lemma SpliceSlice(s: seq<int>, lo: nat, n: nat, x: seq<int>)
    requires lo + n <= |s| && |x| == n
    ensures |Splice(s, lo, n, x)| == |s|
    ensures Segment(Splice(s, lo, n, x), lo, n) == x
    ensures SameOutside(Splice(s, lo, n, x), s, lo, n)
  {
    assert Splice(s, lo, n, x)[lo..lo + n] == x;
  }

  /** A stretch [i, j) after the spliced range is untouched. */
  lemma SpliceAfter(s: seq<int>, lo: nat, n: nat, x: seq<int>, i: nat, j: nat)
    requires lo + n <= i <= j <= |s| && |x| == n
    ensures Splice(s, lo, n, x)[i..j] == s[i..j]
  {
    var r := Splice(s, lo, n, x);
    forall k | 0 <= k < j - i ensures r[i..j][k] == s[i..j][k] {
      assert r[i + k] == s[i + k];
    }
  }

  /** Splicing the same cells into two arrays that agree outside them gives the same array. */
  lemma SpliceOutside(s: seq<int>, t: seq<int>, lo: nat, n: nat, x: seq<int>)
    requires lo + n <= |s| && SameOutside(s, t, lo, n)
    ensures Splice(s, lo, n, x) == Splice(t, lo, n, x)
  {
    assert s[..lo] == t[..lo];
    assert s[lo + n..] == t[lo + n..];
  }

  /** Rewriting [lo, lo+h) and then [lo+h, lo+n) is rewriting [lo, lo+n) with both parts. */
  lemma SpliceHalves(s: seq<int>, lo: nat, h: nat, n: nat, x: seq<int>, y: seq<int>)
    requires h <= n && lo + n <= |s| && |x| == h && |y| == n - h
    ensures Splice(Splice(s, lo, h, x), lo + h, n - h, y) == Splice(s, lo, n, x + y)
    ensures Splice(s, lo, n, x + y)[lo..lo + h] == x
    ensures Splice(s, lo, n, x + y)[lo + h..lo + n] == y
  {
    var s1 := Splice(s, lo, h, x);
    assert s1[..lo + h] == s[..lo] + x;
    assert s1[lo + h + (n - h)..] == s[lo + n..];
    var s2 := Splice(s, lo, n, x + y);
    assert s2[lo..lo + h] == x by {
      forall k | 0 <= k < h ensures s2[lo..lo + h][k] == x[k] {
        assert s2[lo + k] == (x + y)[k];
      }
    }
    assert s2[lo + h..lo + n] == y by {
      forall k | 0 <= k < n - h ensures s2[lo + h..lo + n][k] == y[k] {
        assert s2[lo + h + k] == (x + y)[h + k];
      }
    }
  }

  /** A second rewrite of the same range replaces the first. */
  lemma SpliceTwice(s: seq<int>, lo: nat, n: nat, x: seq<int>, y: seq<int>)
    requires lo + n <= |s| && |x| == n
    ensures Splice(Splice(s, lo, n, x), lo, n, y) == Splice(s, lo, n, y)
  {
    var s1 := Splice(s, lo, n, x);
    assert s1[..lo] == s[..lo];
    assert s1[lo + n..] == s[lo + n..];
  }

  /**
   * Rewrites of two disjoint ranges [lo, lo+h) and [rlo, rlo+rn) do not see
   * each other: each leaves the other's cells alone, and doing them in either
   * order gives the same array.
   */
  lemma SpliceDisjoint(s: seq<int>, lo: nat, h: nat, rlo: nat, rn: nat, x: seq<int>, y: seq<int>)
    requires lo + h <= rlo && rlo + rn <= |s| && |x| == h && |y| == rn
    ensures Segment(Splice(s, lo, h, x), rlo, rn) == Segment(s, rlo, rn)
    ensures Segment(Splice(s, rlo, rn, y), lo, h) == Segment(s, lo, h)
    ensures Splice(Splice(s, lo, h, x), rlo, rn, y) == Splice(Splice(s, rlo, rn, y), lo, h, x)
  {
    var s1, s2 := Splice(s, lo, h, x), Splice(s, rlo, rn, y);
    SpliceSlice(s, lo, h, x);
    SpliceSlice(s, rlo, rn, y);
    assert Segment(s1, rlo, rn) == Segment(s, rlo, rn) by {
      forall k | 0 <= k < rn ensures Segment(s1, rlo, rn)[k] == Segment(s, rlo, rn)[k] {
        assert s1[rlo + k] == s[rlo + k];
      }
    }
    assert Segment(s2, lo, h) == Segment(s, lo, h) by {
      forall k | 0 <= k < h ensures Segment(s2, lo, h)[k] == Segment(s, lo, h)[k] {
        assert s2[lo + k] == s[lo + k];
      }
    }
    var t1, t2 := Splice(s1, rlo, rn, y), Splice(s2, lo, h, x);
    SpliceSlice(s1, rlo, rn, y);
    SpliceSlice(s2, lo, h, x);
    forall k | 0 <= k < |s| ensures t1[k] == t2[k] {
      if lo <= k < lo + h {
        assert t1[k] == s1[k] == Segment(s1, lo, h)[k - lo];
        assert t2[k] == Segment(t2, lo, h)[k - lo];
      } else if rlo <= k < rlo + rn {
        assert t1[k] == Segment(t1, rlo, rn)[k - rlo];
        assert t2[k] == s2[k] == Segment(s2, rlo, rn)[k - rlo];
      }
    }
  }

  /** The two parts of a segment cut at h are the segments [lo, lo+h) and [rlo, rlo+rn). */
  lemma SegmentSplit(s: seq<int>, lo: nat, h: nat, n: nat, rlo: nat, rn: nat)
    requires h <= n && lo + n <= |s| && rlo == lo + h && rn == n - h
    ensures Segment(s, lo, n)[..h] == Segment(s, lo, h)
    ensures Segment(s, lo, n)[h..] == Segment(s, rlo, rn)
  {
  }

  /**
   * Rewriting the left part [lo, lo+h) of a range, then its right part
   * [rlo, rlo+rn) = [lo+h, lo+n), then the whole range: the right part still
   * held its original cells when it was rewritten, both parts are in place
   * before the last rewrite, and the result is a single rewrite of the range.
   */
  lemma SpliceStep(A0: seq<int>, A1: seq<int>, A2: seq<int>, A3: seq<int>, lo: nat, h: nat, n: nat,
                   rlo: nat, rn: nat, x: seq<int>, y: seq<int>, z: seq<int>)
    requires h <= n && lo + n <= |A0| && rlo == lo + h && rn == n - h && |x| == h && |y| == rn
    requires A1 == Splice(A0, lo, h, x)
    requires A2 == Splice(A1, rlo, rn, y)
    requires A3 == Splice(A2, lo, n, z)
    ensures Segment(A1, rlo, rn) == Segment(A0, rlo, rn)
    ensures Segment(A2, lo, h) == x && Segment(A2, rlo, rn) == y
    ensures A3 == Splice(A0, lo, n, z)
  {
    SpliceAfter(A0, lo, h, x, lo + h, lo + n);
    SpliceHalves(A0, lo, h, n, x, y);
    SpliceTwice(A0, lo, n, x + y, z);
  }
}
