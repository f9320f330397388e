/**
 * The in-place nodata rewrite `data[data == nodata] = value` shared by several
 * scripts: every sample equal to `from` becomes `to`.
 */
module Nodata {
  import opened Grids

  /** The band after the rewrite, as a value. */
  function ReplaceValue(g: Grid, from: int, to: int): (z: Grid)
    ensures |z| == |g|
    ensures forall r :: 0 <= r < |g| ==> |z[r]| == |g[r]|
  {
    seq(|g|, r requires 0 <= r < |g| =>
      seq(|g[r]|, c requires 0 <= c < |g[r]| => if g[r][c] == from then to else g[r][c]))
  }

  /** `a[a == from] = to`, cell by cell. */
  method ReplaceInPlace(a: array2<int>, from: int, to: int)
    modifies a
    ensures Contents(a) == ReplaceValue(old(Contents(a)), from, to)
  {
    ghost var g := Contents(a);
    for r := 0 to a.Length0
      invariant forall i, j :: 0 <= i < a.Length0 && 0 <= j < a.Length1 ==>
        a[i, j] == if i < r && g[i][j] == from then to else g[i][j]
    {
      for c := 0 to a.Length1
        invariant forall i, j :: 0 <= i < a.Length0 && 0 <= j < a.Length1 ==>
          a[i, j] == if (i < r || (i == r && j < c)) && g[i][j] == from then to else g[i][j]
      {
        if a[r, c] == from {
          a[r, c] := to;
        }
      }
    }
    forall i | 0 <= i < a.Length0 ensures Contents(a)[i] == ReplaceValue(g, from, to)[i] {
    }
  }

  /** Samples equal to `from` become `to`; every other sample keeps its value. */
  lemma ReplacedCells(g: Grid, from: int, to: int, r: nat, c: nat)
    requires r < |g| && c < |g[r]|
    ensures g[r][c] == from ==> ReplaceValue(g, from, to)[r][c] == to
    ensures g[r][c] != from ==> ReplaceValue(g, from, to)[r][c] == g[r][c]
  {
  }

  /** Once `from` is rewritten to a different value, no sample equals `from`. */
  lemma NoneLeft(g: Grid, from: int, to: int)
    requires from != to
    ensures forall r, c :: 0 <= r < |g| && 0 <= c < |g[r]| ==> ReplaceValue(g, from, to)[r][c] != from
  {
  }

  /** Rewriting a value to itself leaves the band unchanged. */
  lemma ReplaceWithItself(g: Grid, v: int)
    ensures ReplaceValue(g, v, v) == g
  {
    var z := ReplaceValue(g, v, v);
    forall r | 0 <= r < |g| ensures z[r] == g[r] {
    }
  }
}
