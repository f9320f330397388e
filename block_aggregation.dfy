/**
 * Aggregation of a fine raster into coarse blocks by explicit nested loops:
 * `sum_high_res_values` (distance script: explicit `min` clipping, then the last
 * column dropped) and `count_high_res_edges` (density script: numpy slice
 * clipping, `uint32` cells, no trimming). The reprojected fine grid, its size and
 * the coarse size are inputs; so are the integer resolution ratios
 * `int(final_res[k] / high_res[k])`, as the pair `ratios`.
 */
module BlockAggregation {
  import opened Grids

  function Min(a: int, b: int): int
  {
    if a < b then a else b
  }

  /** Output cell `(i, j)` of the distance script: rows `[i*sy, min((i+1)*sy, h))`, columns `[j*sx, min((j+1)*sx, w))`. */
  function ClippedCell(g: Grid, h: nat, w: nat, sy: nat, sx: nat, i: nat, j: nat): int
  {
    BlockSum(g, i * sy, Min((i + 1) * sy, h), j * sx, Min((j + 1) * sx, w))
  }

  /** `np.sum(g[i*sv:(i+1)*sv, j*sh:(j+1)*sh])`, the slices clipped by numpy. */
  function SliceCell(g: Grid, sv: nat, sh: nat, i: nat, j: nat): int
  {
    BlockSum(g, i * sv, (i + 1) * sv, j * sh, (j + 1) * sh)
  }

  const Uint32Modulus: int := 0x1_0000_0000

  /** Storing the sum in a `uint32` array keeps it modulo 2^32. */
  function ToUint32(x: int): (u: int)
    ensures 0 <= u < Uint32Modulus
    ensures 0 <= x < Uint32Modulus ==> u == x
  {
    x % Uint32Modulus
  }

  /** Output cell `(i, j)` of the density script. */
  function DensityCell(g: Grid, sv: nat, sh: nat, i: nat, j: nat): int
  {
    ToUint32(SliceCell(g, sv, sh, i, j))
  }

  /**
   * The nested loops of `sum_high_res_values`, before trimming: a zeroed
   * `fh` by `fw` array whose every cell is then set to its clipped block sum.
   */
  method AggregateBlocks(g: Grid, h: nat, w: nat, fh: nat, fw: nat, sy: nat, sx: nat)
    returns (out: array2<int>)
    requires IsGrid(g, h, w)
    ensures fresh(out) && out.Length0 == fh && out.Length1 == fw
    ensures forall i, j :: 0 <= i < fh && 0 <= j < fw ==> out[i, j] == ClippedCell(g, h, w, sy, sx, i, j)
  {
    out := new int[fh, fw]((_, _) => 0);
    for i := 0 to fh
      invariant forall i', j' :: 0 <= i' < fh && 0 <= j' < fw ==>
        out[i', j'] == if i' < i then ClippedCell(g, h, w, sy, sx, i', j') else 0
    {
      for j := 0 to fw
        invariant forall i', j' :: 0 <= i' < fh && 0 <= j' < fw ==>
          out[i', j'] == if i' < i || (i' == i && j' < j) then ClippedCell(g, h, w, sy, sx, i', j') else 0
      {
        out[i, j] := BlockSum(g, i * sy, Min((i + 1) * sy, h), j * sx, Min((j + 1) * sx, w));
      }
    }
  }

  /** `final_data[:, :-1]`: every column but the last, as a new array. */
  method DropLastColumn(a: array2<int>) returns (b: array2<int>)
    ensures fresh(b) && b.Length0 == a.Length0
    ensures b.Length1 == if a.Length1 == 0 then 0 else a.Length1 - 1
    ensures forall i, j :: 0 <= i < b.Length0 && 0 <= j < b.Length1 ==> b[i, j] == a[i, j]
  {
    var cols := if a.Length1 == 0 then 0 else a.Length1 - 1;
    b := new int[a.Length0, cols];
    for i := 0 to a.Length0
      invariant forall i', j' :: 0 <= i' < i && 0 <= j' < cols ==> b[i', j'] == a[i', j']
    {
      for j := 0 to cols
        invariant forall i', j' :: 0 <= i' < i && 0 <= j' < cols ==> b[i', j'] == a[i', j']
        invariant forall j' :: 0 <= j' < j ==> b[i, j'] == a[i, j']
      {
        b[i, j] := a[i, j];
      }
    }
  }

  /**
   * `sum_high_res_values`: the row step is `ratios.1` and the column step
   * `ratios.0`; after the loops the last column is dropped and `final_width`
   * decremented, which makes it -1 when it was 0.
   */
  method SumHighResValues(g: Grid, h: nat, w: nat, fh: nat, fw: nat, ratios: (nat, nat))
    returns (out: array2<int>, finalWidth: int)
    requires IsGrid(g, h, w)
    ensures fresh(out) && out.Length0 == fh
    ensures finalWidth == fw - 1
    ensures out.Length1 == if fw == 0 then 0 else fw - 1
    ensures forall i, j :: 0 <= i < out.Length0 && 0 <= j < out.Length1 ==>
      out[i, j] == ClippedCell(g, h, w, ratios.1, ratios.0, i, j)
  {
    var full := AggregateBlocks(g, h, w, fh, fw, ratios.1, ratios.0);
    out := DropLastColumn(full);
    finalWidth := fw - 1;
  }

  /**
   * `count_high_res_edges`: the row step is `ratios.0` and the column step
   * `ratios.1`, the slices are left to numpy to clip, and every cell of the
   * `fh` by `fw` result is kept.
   */
  method CountHighResEdges(g: Grid, fh: nat, fw: nat, ratios: (nat, nat)) returns (out: array2<int>)
    ensures fresh(out) && out.Length0 == fh && out.Length1 == fw
    ensures forall i, j :: 0 <= i < fh && 0 <= j < fw ==> out[i, j] == DensityCell(g, ratios.0, ratios.1, i, j)
  {
    out := new int[fh, fw]((_, _) => 0);
    for i := 0 to fh
      invariant forall i', j' :: 0 <= i' < fh && 0 <= j' < fw ==>
        out[i', j'] == if i' < i then DensityCell(g, ratios.0, ratios.1, i', j') else 0
    {
      for j := 0 to fw
        invariant forall i', j' :: 0 <= i' < fh && 0 <= j' < fw ==>
          out[i', j'] == if i' < i || (i' == i && j' < j) then DensityCell(g, ratios.0, ratios.1, i', j') else 0
      {
        var s := BlockSum(g, i * ratios.0, (i + 1) * ratios.0, j * ratios.1, (j + 1) * ratios.1);
        out[i, j] := s % Uint32Modulus;
      }
    }
  }

  /** The explicit `min` clipping of one script and numpy's slice clipping of the other give the same block sum. */
  lemma ClippedIsSliceCell(g: Grid, h: nat, w: nat, sy: nat, sx: nat, i: nat, j: nat)
    requires IsGrid(g, h, w)
    ensures ClippedCell(g, h, w, sy, sx, i, j) == SliceCell(g, sy, sx, i, j)
  {
    var r0, r1, c0, c1 := i * sy, (i + 1) * sy, j * sx, (j + 1) * sx;
    BlockSumRowClip(g, r0, r1, c0, c1);
    BlockSumColClip(g, w, r0, Min(r1, h), c0, c1);
    BlockSumColClip(g, w, r0, r1, c0, c1);
  }

  /** A block wholly inside the grid whose samples are all 1 sums to `sy * sx`. */
  lemma FullBlockOfOnes(g: Grid, h: nat, w: nat, sy: nat, sx: nat, i: nat, j: nat)
    requires IsGrid(g, h, w)
    requires (i + 1) * sy <= h && (j + 1) * sx <= w
    requires forall r, c :: i * sy <= r < (i + 1) * sy && j * sx <= c < (j + 1) * sx ==> g[r][c] == 1
    ensures ClippedCell(g, h, w, sy, sx, i, j) == sy * sx
  {
    assert i * sy <= (i + 1) * sy && j * sx <= (j + 1) * sx by {
      assert (i + 1) * sy == i * sy + sy;
      assert (j + 1) * sx == j * sx + sx;
    }
    BlockSumOnes(g, i * sy, (i + 1) * sy, j * sx, (j + 1) * sx);
    assert (i + 1) * sy - i * sy == sy && (j + 1) * sx - j * sx == sx;
  }

  /** A block starting at or beyond the last row or the last column is 0. */
  lemma BlockBeyondExtent(g: Grid, h: nat, w: nat, sy: nat, sx: nat, i: nat, j: nat)
    requires IsGrid(g, h, w)
    requires i * sy >= h || j * sx >= w
    ensures ClippedCell(g, h, w, sy, sx, i, j) == 0
    ensures SliceCell(g, sy, sx, i, j) == 0 && DensityCell(g, sy, sx, i, j) == 0
  {
    ClippedIsSliceCell(g, h, w, sy, sx, i, j);
    BlockSumOutside(g, i * sy, (i + 1) * sy, j * sx, (j + 1) * sx);
  }

  /** The blocks of two different output rows do not share an input row (likewise for columns). */
  lemma BlocksDisjoint(s: nat, i: nat, i': nat, r: int)
    requires i * s <= r < (i + 1) * s
    requires i' * s <= r < (i' + 1) * s
    ensures i == i'
  {
    if i < i' {
      MulMono(i + 1, i', s);
    } else if i' < i {
      MulMono(i' + 1, i, s);
    }
  }

  lemma MulMono(a: nat, b: nat, s: nat)
    requires a <= b
    ensures a * s <= b * s
  {
  }

  /** On a 0/1 edge map every density cell lies in `[0, sv*sh]`; a full block of edges gives exactly `sv*sh`. */
  lemma DensityCellBounds(g: Grid, h: nat, w: nat, sv: nat, sh: nat, i: nat, j: nat)
    requires IsGrid(g, h, w) && IsBinary(g)
    ensures 0 <= DensityCell(g, sv, sh, i, j) <= sv * sh
    ensures ((i + 1) * sv <= h && (j + 1) * sh <= w && sv * sh < Uint32Modulus
             && forall r, c :: i * sv <= r < (i + 1) * sv && j * sh <= c < (j + 1) * sh ==> g[r][c] == 1)
      ==> DensityCell(g, sv, sh, i, j) == sv * sh
  {
    var r0, r1, c0, c1 := i * sv, (i + 1) * sv, j * sh, (j + 1) * sh;
    assert r1 == r0 + sv && c1 == c0 + sh;
    BlockSumBinary(g, r0, r1, c0, c1);
    assert (r1 - r0) * (c1 - c0) == sv * sh;
    if (i + 1) * sv <= h && (j + 1) * sh <= w && sv * sh < Uint32Modulus
      && (forall r, c :: i * sv <= r < (i + 1) * sv && j * sh <= c < (j + 1) * sh ==> g[r][c] == 1)
    {
      FullBlockOfOnes(g, h, w, sv, sh, i, j);
      ClippedIsSliceCell(g, h, w, sv, sh, i, j);
    }
  }

  /** The sum of cells `(i, 0) .. (i, n-1)`. */
  function RowOfCells(g: Grid, h: nat, w: nat, sy: nat, sx: nat, i: nat, n: nat): int
  {
    if n == 0 then 0 else RowOfCells(g, h, w, sy, sx, i, n - 1) + ClippedCell(g, h, w, sy, sx, i, n - 1)
  }

  /** The sum of every cell in the first `m` rows of an `m` by `n` result. */
  function TotalOfCells(g: Grid, h: nat, w: nat, sy: nat, sx: nat, m: nat, n: nat): int
  {
    if m == 0 then 0 else TotalOfCells(g, h, w, sy, sx, m - 1, n) + RowOfCells(g, h, w, sy, sx, m - 1, n)
  }

  /** One row of cells tiles the input strip of that row up to column `min(n*sx, w)`. */
  lemma {:induction false} RowOfCellsTiles(g: Grid, h: nat, w: nat, sy: nat, sx: nat, i: nat, n: nat)
    requires IsGrid(g, h, w)
    ensures RowOfCells(g, h, w, sy, sx, i, n) == BlockSum(g, i * sy, Min((i + 1) * sy, h), 0, Min(n * sx, w))
  {
    var r0, r1 := i * sy, Min((i + 1) * sy, h);
    if n == 0 {
      BlockSumEmptyCols(g, r0, r1, 0, 0);
    } else {
      RowOfCellsTiles(g, h, w, sy, sx, i, n - 1);
      var k := n - 1;
      assert n * sx == k * sx + sx;
      if k * sx <= w {
        BlockSumSplitCols(g, r0, r1, 0, k * sx, Min(n * sx, w));
      } else {
        BlockSumEmptyCols(g, r0, r1, k * sx, Min(n * sx, w));
      }
    }
  }

  /** All the cells together tile the input up to row `min(m*sy, h)` and column `min(n*sx, w)`. */
  lemma {:induction false} CellsTile(g: Grid, h: nat, w: nat, sy: nat, sx: nat, m: nat, n: nat)
    requires IsGrid(g, h, w)
    ensures TotalOfCells(g, h, w, sy, sx, m, n) == BlockSum(g, 0, Min(m * sy, h), 0, Min(n * sx, w))
  {
    if m > 0 {
      var k := m - 1;
      CellsTile(g, h, w, sy, sx, k, n);
      RowOfCellsTiles(g, h, w, sy, sx, k, n);
      assert k + 1 == m;
      assert k * sy <= m * sy;
      StripBelow(g, h, k * sy, m * sy, Min(n * sx, w));
    }
  }

  /** A strip from row `a` to row `b`, added below the rows above `a`, gives the rows above `b` (all clipped at `h`). */
  lemma StripBelow(g: Grid, h: nat, a: nat, b: nat, c1: nat)
    requires a <= b
    ensures BlockSum(g, 0, Min(a, h), 0, c1) + BlockSum(g, a, Min(b, h), 0, c1) == BlockSum(g, 0, Min(b, h), 0, c1)
  {
    if a <= h {
      BlockSumSplitRows(g, 0, a, Min(b, h), 0, c1);
    } else {
      BlockSumEmptyRows(g, a, Min(b, h), 0, c1);
    }
  }

  lemma BlockSumEmptyRows(g: Grid, r0: nat, r1: nat, c0: nat, c1: nat)
    requires r1 <= r0
    ensures BlockSum(g, r0, r1, c0, c1) == 0
  {
  }

  /**
   * With non-negative input the cells of an `fh` by `fw` result add up to at most
   * the input total, and to exactly the input total when the blocks cover the grid.
   */
  lemma CellsTotal(g: Grid, h: nat, w: nat, sy: nat, sx: nat, fh: nat, fw: nat)
    requires IsGrid(g, h, w) && NonNegative(g)
    ensures TotalOfCells(g, h, w, sy, sx, fh, fw) <= BlockSum(g, 0, h, 0, w)
    ensures fh * sy >= h && fw * sx >= w ==> TotalOfCells(g, h, w, sy, sx, fh, fw) == BlockSum(g, 0, h, 0, w)
  {
    CellsTile(g, h, w, sy, sx, fh, fw);
    BlockSumMonotone(g, 0, Min(fh * sy, h), 0, Min(fw * sx, w), 0, h, 0, w);
  }
}
