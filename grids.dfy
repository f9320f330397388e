/**
 * Single-band rasters as rectangular sequences of rows, and the block sums that
 * numpy computes with `np.sum(a[r0:r1, c0:c1])`. Slices are clipped to the grid the
 * way numpy clips them: a stop beyond the end stops at the end, a start at or past
 * the stop gives an empty slice.
 */
module Grids {

  /** A raster band: `g[r][c]` is the sample in row `r`, column `c`. */
  type Grid = seq<seq<int>>

  /** `g` has exactly `h` rows of `w` samples each. */
  predicate IsGrid<T>(g: seq<seq<T>>, h: nat, w: nat)
  {
    |g| == h && forall r :: 0 <= r < h ==> |g[r]| == w
  }

  predicate InGrid(h: nat, w: nat, r: int, c: int)
  {
    0 <= r < h && 0 <= c < w
  }

  /** Every sample is 0 or 1. */
  predicate IsBinary(g: Grid)
  {
    forall r, c :: 0 <= r < |g| && 0 <= c < |g[r]| ==> g[r][c] == 0 || g[r][c] == 1
  }

  predicate NonNegative(g: Grid)
  {
    forall r, c :: 0 <= r < |g| && 0 <= c < |g[r]| ==> g[r][c] >= 0
  }

  /** The contents of a two-dimensional array, row by row. */
  ghost function Contents<T>(a: array2<T>): (g: seq<seq<T>>)
    reads a
    ensures IsGrid(g, a.Length0, a.Length1)
  {
    seq(a.Length0, r requires 0 <= r < a.Length0 reads a =>
      seq(a.Length1, c requires 0 <= c < a.Length1 reads a => a[r, c]))
  }

  /** `np.sum(row[lo:hi])`: the samples `row[k]` with `lo <= k < min(hi, |row|)`. */
  function RowSum(row: seq<int>, lo: nat, hi: nat): int
    decreases hi
  {
    if hi <= lo then 0
    else if hi > |row| then RowSum(row, lo, |row|)
    else RowSum(row, lo, hi - 1) + row[hi - 1]
  }

  /** `np.sum(g[r0:r1, c0:c1])`, both slices clipped to the grid. */
  function BlockSum(g: Grid, r0: nat, r1: nat, c0: nat, c1: nat): int
    decreases r1
  {
    if r1 <= r0 then 0
    else if r1 > |g| then BlockSum(g, r0, |g|, c0, c1)
    else BlockSum(g, r0, r1 - 1, c0, c1) + RowSum(g[r1 - 1], c0, c1)
  }

  lemma {:induction false} RowSumClip(row: seq<int>, lo: nat, hi: nat)
    ensures RowSum(row, lo, hi) == RowSum(row, lo, if hi < |row| then hi else |row|)
  {
  }

  lemma {:induction false} RowSumSplit(row: seq<int>, lo: nat, mid: nat, hi: nat)
    requires lo <= mid <= hi
    ensures RowSum(row, lo, hi) == RowSum(row, lo, mid) + RowSum(row, mid, hi)
    decreases hi
  {
    if hi == mid {
    } else if hi > |row| {
      if mid >= |row| {
        assert RowSum(row, mid, hi) == RowSum(row, mid, |row|) == 0;
        RowSumClip(row, lo, mid);
      } else {
        RowSumSplit(row, lo, mid, |row|);
      }
    } else {
      RowSumSplit(row, lo, mid, hi - 1);
    }
  }

  lemma {:induction false} BlockSumSplitRows(g: Grid, r0: nat, rm: nat, r1: nat, c0: nat, c1: nat)
    requires r0 <= rm <= r1
    ensures BlockSum(g, r0, r1, c0, c1) == BlockSum(g, r0, rm, c0, c1) + BlockSum(g, rm, r1, c0, c1)
    decreases r1
  {
    if r1 == rm {
    } else if r1 > |g| {
      if rm >= |g| {
        assert BlockSum(g, rm, r1, c0, c1) == BlockSum(g, rm, |g|, c0, c1) == 0;
        BlockSumRowClip(g, r0, rm, c0, c1);
      } else {
        BlockSumSplitRows(g, r0, rm, |g|, c0, c1);
      }
    } else {
      BlockSumSplitRows(g, r0, rm, r1 - 1, c0, c1);
    }
  }

  lemma {:induction false} BlockSumRowClip(g: Grid, r0: nat, r1: nat, c0: nat, c1: nat)
    ensures BlockSum(g, r0, r1, c0, c1) == BlockSum(g, r0, if r1 < |g| then r1 else |g|, c0, c1)
  {
  }

  lemma {:induction false} BlockSumSplitCols(g: Grid, r0: nat, r1: nat, c0: nat, cm: nat, c1: nat)
    requires c0 <= cm <= c1
    ensures BlockSum(g, r0, r1, c0, c1) == BlockSum(g, r0, r1, c0, cm) + BlockSum(g, r0, r1, cm, c1)
    decreases r1
  {
    if r1 <= r0 {
    } else if r1 > |g| {
      BlockSumSplitCols(g, r0, |g|, c0, cm, c1);
    } else {
      BlockSumSplitCols(g, r0, r1 - 1, c0, cm, c1);
      RowSumSplit(g[r1 - 1], c0, cm, c1);
    }
  }

  /** A slice that starts at or beyond the last row sums to nothing. */
  lemma {:induction false} BlockSumOutside(g: Grid, r0: nat, r1: nat, c0: nat, c1: nat)
    requires IsGrid(g, |g|, if |g| == 0 then 0 else |g[0]|)
    requires r0 >= |g| || (|g| > 0 && c0 >= |g[0]|)
    ensures BlockSum(g, r0, r1, c0, c1) == 0
    decreases r1
  {
    if r1 <= r0 {
    } else if r1 > |g| {
      BlockSumOutside(g, r0, |g|, c0, c1);
    } else {
      BlockSumOutside(g, r0, r1 - 1, c0, c1);
      RowSumOutside(g[r1 - 1], c0, c1);
    }
  }

  lemma {:induction false} RowSumOutside(row: seq<int>, lo: nat, hi: nat)
    requires lo >= |row|
    ensures RowSum(row, lo, hi) == 0
    decreases hi
  {
    if hi > lo && hi > |row| {
      RowSumOutside(row, lo, |row|);
    }
  }

  lemma {:induction false} RowSumNonNeg(row: seq<int>, lo: nat, hi: nat)
    requires forall k :: 0 <= k < |row| ==> row[k] >= 0
    ensures RowSum(row, lo, hi) >= 0
    decreases hi
  {
    if hi <= lo {
    } else if hi > |row| {
      RowSumNonNeg(row, lo, |row|);
    } else {
      RowSumNonNeg(row, lo, hi - 1);
    }
  }

  lemma {:induction false} BlockSumNonNeg(g: Grid, r0: nat, r1: nat, c0: nat, c1: nat)
    requires NonNegative(g)
    ensures BlockSum(g, r0, r1, c0, c1) >= 0
    decreases r1
  {
    if r1 <= r0 {
    } else if r1 > |g| {
      BlockSumNonNeg(g, r0, |g|, c0, c1);
    } else {
      BlockSumNonNeg(g, r0, r1 - 1, c0, c1);
      RowSumNonNeg(g[r1 - 1], c0, c1);
    }
  }

  /** With non-negative samples, a block inside another sums to no more than it. */
  lemma BlockSumMonotone(g: Grid, r0: nat, r1: nat, c0: nat, c1: nat, R0: nat, R1: nat, C0: nat, C1: nat)
    requires NonNegative(g)
    requires R0 <= r0 && r1 <= R1 && C0 <= c0 && c1 <= C1
    requires r0 <= r1 && c0 <= c1
    ensures BlockSum(g, r0, r1, c0, c1) <= BlockSum(g, R0, R1, C0, C1)
  {
    BlockSumSplitRows(g, R0, r0, R1, C0, C1);
    BlockSumSplitRows(g, r0, r1, R1, C0, C1);
    BlockSumNonNeg(g, R0, r0, C0, C1);
    BlockSumNonNeg(g, r1, R1, C0, C1);
    BlockSumSplitCols(g, r0, r1, C0, c0, C1);
    BlockSumSplitCols(g, r0, r1, c0, c1, C1);
    BlockSumNonNeg(g, r0, r1, C0, c0);
    BlockSumNonNeg(g, r0, r1, c1, C1);
  }

  lemma {:induction false} RowSumBinary(row: seq<int>, lo: nat, hi: nat)
    requires lo <= hi
    requires forall k :: 0 <= k < |row| ==> row[k] == 0 || row[k] == 1
    ensures 0 <= RowSum(row, lo, hi) <= hi - lo
    decreases hi
  {
    if hi == lo {
    } else if hi > |row| {
      if |row| <= lo {
        RowSumOutside(row, lo, hi);
      } else {
        RowSumBinary(row, lo, |row|);
      }
    } else {
      RowSumBinary(row, lo, hi - 1);
    }
  }

  /** A block of a 0/1 raster counts at most as many ones as it has cells. */
  lemma {:induction false} BlockSumBinary(g: Grid, r0: nat, r1: nat, c0: nat, c1: nat)
    requires r0 <= r1 && c0 <= c1
    requires IsBinary(g)
    ensures 0 <= BlockSum(g, r0, r1, c0, c1) <= (r1 - r0) * (c1 - c0)
    decreases r1
  {
    if r1 == r0 {
    } else if r1 > |g| {
      if |g| <= r0 {
        assert BlockSum(g, r0, r1, c0, c1) == BlockSum(g, r0, |g|, c0, c1) == 0;
      } else {
        BlockSumBinary(g, r0, |g|, c0, c1);
        assert (|g| - r0) * (c1 - c0) <= (r1 - r0) * (c1 - c0);
      }
    } else {
      BlockSumBinary(g, r0, r1 - 1, c0, c1);
      RowSumBinary(g[r1 - 1], c0, c1);
      assert (r1 - r0) * (c1 - c0) == (r1 - 1 - r0) * (c1 - c0) + (c1 - c0);
    }
  }

  lemma {:induction false} RowSumOnes(row: seq<int>, lo: nat, hi: nat)
    requires lo <= hi <= |row|
    requires forall k :: lo <= k < hi ==> row[k] == 1
    ensures RowSum(row, lo, hi) == hi - lo
    decreases hi
  {
    if hi > lo {
      RowSumOnes(row, lo, hi - 1);
    }
  }

  /** A block lying wholly inside the grid whose cells are all 1 sums to its area. */
  lemma {:induction false} BlockSumOnes(g: Grid, r0: nat, r1: nat, c0: nat, c1: nat)
    requires r0 <= r1 <= |g| && c0 <= c1
    requires forall r :: r0 <= r < r1 ==> c1 <= |g[r]|
    requires forall r, c :: r0 <= r < r1 && c0 <= c < c1 ==> g[r][c] == 1
    ensures BlockSum(g, r0, r1, c0, c1) == (r1 - r0) * (c1 - c0)
    decreases r1
  {
    if r1 > r0 {
      BlockSumOnes(g, r0, r1 - 1, c0, c1);
      RowSumOnes(g[r1 - 1], c0, c1);
      assert (r1 - r0) * (c1 - c0) == (r1 - 1 - r0) * (c1 - c0) + (c1 - c0);
    }
  }

  /** A column slice whose stop is at or before its start sums to nothing. */
  lemma {:induction false} BlockSumEmptyCols(g: Grid, r0: nat, r1: nat, c0: nat, c1: nat)
    requires c1 <= c0
    ensures BlockSum(g, r0, r1, c0, c1) == 0
    decreases r1
  {
    if r1 <= r0 {
    } else if r1 > |g| {
      BlockSumEmptyCols(g, r0, |g|, c0, c1);
    } else {
      BlockSumEmptyCols(g, r0, r1 - 1, c0, c1);
    }
  }

  /** Clipping the column stop to the width `w` of every row changes nothing. */
  lemma {:induction false} BlockSumColClip(g: Grid, w: nat, r0: nat, r1: nat, c0: nat, c1: nat)
    requires IsGrid(g, |g|, w)
    ensures BlockSum(g, r0, r1, c0, c1) == BlockSum(g, r0, r1, c0, if c1 < w then c1 else w)
    decreases r1
  {
    if r1 <= r0 {
    } else if r1 > |g| {
      BlockSumColClip(g, w, r0, |g|, c0, c1);
    } else {
      BlockSumColClip(g, w, r0, r1 - 1, c0, c1);
      RowSumClip(g[r1 - 1], c0, c1);
    }
  }
}
