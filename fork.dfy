/**
 * The bookkeeping of one fork of the parallel driver: how a range of the
 * array (and of the scratch buffer) is cut in two, and how the thread budget
 * is shared between the two halves.
 */
module Fork {

  /** A contiguous span of a buffer: `len` cells starting at `lo`. */
  datatype Range = Range(lo: nat, len: nat)

  /** Whether index k lies in the range. */
  predicate Covers(r: Range, k: int) {
    r.lo <= k < r.lo + r.len
  }

  /**
   * Cuts a range at half its length (rounded down). The halves are adjacent,
   * disjoint, and together cover exactly the parent range, so the two sections
   * that sort them never touch the same cell.
   */
  function Halves(r: Range): (h: (Range, Range))
    ensures h.0.lo == r.lo && h.0.len == r.len / 2
    ensures h.1.lo == h.0.lo + h.0.len
    ensures h.0.len + h.1.len == r.len
    ensures h.0.len <= h.1.len <= h.0.len + 1
    ensures forall k :: !(Covers(h.0, k) && Covers(h.1, k))
    ensures forall k :: Covers(r, k) <==> Covers(h.0, k) || Covers(h.1, k)
  {
    (Range(r.lo, r.len / 2), Range(r.lo + r.len / 2, r.len - r.len / 2))
  }

  /**
   * Shares a budget of more than one thread between the two halves. Nothing
   * is lost or created, and each share is at least one thread and strictly
   * less than the whole, so every recursive call gets a positive budget.
   */
  function SplitBudget(threads: int): (shares: (int, int))
    requires threads > 1
    ensures shares.0 + shares.1 == threads
    ensures 1 <= shares.0 < threads && 1 <= shares.1 < threads
    ensures shares.0 <= shares.1 <= shares.0 + 1
  {
    (threads / 2, threads - threads / 2)
  }

  /**
   * The number of serial sorts the driver starts from a budget of `threads`:
   * one when the budget is 1, the sum over both halves when it is larger,
   * none for a budget that is not positive.
   */
  function SerialLeaves(threads: int): (n: nat)
    ensures n == 0 <==> threads < 1
    decreases threads
  {
    if threads == 1 then 1
    else if threads > 1 then
      var (t1, t2) := SplitBudget(threads);
      SerialLeaves(t1) + SerialLeaves(t2)
    else 0
  }

  /**
   * A positive budget ends in exactly that many serial sorts, so the driver
   * never runs more sequential sorts at once than the threads it was given.
   */
  lemma {:induction false} SerialLeavesEqualBudget(threads: int)
    requires threads >= 1
    ensures SerialLeaves(threads) == threads
    decreases threads
  {
    if threads > 1 {
      var (t1, t2) := SplitBudget(threads);
      SerialLeavesEqualBudget(t1);
      SerialLeavesEqualBudget(t2);
    }
  }
}
