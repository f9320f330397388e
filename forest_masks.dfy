/**
 * Binary forest / non-forest maps built by thresholding a forest-cover raster
 * (`create_binary_forest_map`, one copy in each of two scripts with different
 * default thresholds), and the erosion edge predicate of `calculate_edge_density`.
 */
module ForestMasks {
  import opened Grids

  /** Default threshold of the forest-edge distance/density script. */
  const DensityScriptThreshold: int := 3000

  /** Default threshold of the binary forest / non-forest script. */
  const CoverScriptThreshold: int := 1

  /** `(data >= threshold).astype(uint8)` */
  function BinaryForestMap(data: Grid, threshold: int): (m: Grid)
    ensures |m| == |data|
    ensures forall r :: 0 <= r < |m| ==> |m[r]| == |data[r]|
    ensures IsBinary(m)
  {
    seq(|data|, r requires 0 <= r < |data| =>
      seq(|data[r]|, c requires 0 <= c < |data[r]| => if data[r][c] >= threshold then 1 else 0))
  }

  /** A pixel of the binary map is 1 exactly where the input reaches the threshold. */
  lemma ForestWhereAtThreshold(data: Grid, threshold: int, r: nat, c: nat)
    requires r < |data| && c < |data[r]|
    ensures BinaryForestMap(data, threshold)[r][c] == 1 <==> data[r][c] >= threshold
    ensures BinaryForestMap(data, threshold)[r][c] == 0 <==> data[r][c] < threshold
  {
  }

  /** Raising the threshold never turns a non-forest pixel into forest. */
  lemma RaiseThresholdShrinksForest(data: Grid, t1: int, t2: int, r: nat, c: nat)
    requires t1 <= t2
    requires r < |data| && c < |data[r]|
    ensures BinaryForestMap(data, t2)[r][c] <= BinaryForestMap(data, t1)[r][c]
  {
  }

  /** With the cover script's default threshold of 1, a non-negative pixel is forest iff it is non-zero. */
  lemma CoverDefaultIsNonZero(data: Grid, r: nat, c: nat)
    requires NonNegative(data)
    requires r < |data| && c < |data[r]|
    ensures BinaryForestMap(data, CoverScriptThreshold)[r][c] == 1 <==> data[r][c] != 0
  {
  }

  /** `binary_erosion` reads samples outside the grid as 0 (`border_value=0`). */
  predicate Foreground(d: Grid, r: int, c: int)
  {
    0 <= r < |d| && 0 <= c < |d[r]| && d[r][c] != 0
  }

  /**
   * `binary_erosion(data, generate_binary_structure(2, 1))`: the 4-connected cross
   * including the centre, so a pixel survives iff it and its four neighbours are
   * foreground and inside the grid.
   */
  predicate ErodedByCross(d: Grid, r: int, c: int)
  {
    Foreground(d, r, c) && Foreground(d, r - 1, c) && Foreground(d, r + 1, c)
    && Foreground(d, r, c - 1) && Foreground(d, r, c + 1)
  }

  /** `binary_erosion(data, structure=struct) != data`: the boolean erosion (0 or 1) compared with the raw sample. */
  function ErosionEdges(d: Grid): (e: Grid)
    ensures |e| == |d|
    ensures forall r :: 0 <= r < |e| ==> |e[r]| == |d[r]|
    ensures IsBinary(e)
  {
    seq(|d|, r requires 0 <= r < |d| =>
      seq(|d[r]|, c requires 0 <= c < |d[r]| =>
        if (if ErodedByCross(d, r, c) then 1 else 0) != d[r][c] then 1 else 0))
  }

  /** A background pixel is never an edge. */
  lemma EdgesAreForeground(d: Grid, r: nat, c: nat)
    requires r < |d| && c < |d[r]|
    ensures ErosionEdges(d)[r][c] == 1 ==> d[r][c] != 0
  {
  }

  /** On a 0/1 map, a forest pixel is an edge iff one of its 4-neighbours is non-forest or off the grid. */
  lemma BinaryEdgeIff(d: Grid, r: nat, c: nat)
    requires IsBinary(d)
    requires r < |d| && c < |d[r]|
    ensures ErosionEdges(d)[r][c] == 1 <==>
      d[r][c] == 1 && !(Foreground(d, r - 1, c) && Foreground(d, r + 1, c)
                       && Foreground(d, r, c - 1) && Foreground(d, r, c + 1))
  {
  }

  /** On a 0/1 map, every forest pixel in the first or last row or column is an edge. */
  lemma BorderForestIsEdge(d: Grid, h: nat, w: nat, r: nat, c: nat)
    requires IsGrid(d, h, w) && IsBinary(d)
    requires r < h && c < w && d[r][c] == 1
    requires r == 0 || r == h - 1 || c == 0 || c == w - 1
    ensures ErosionEdges(d)[r][c] == 1
  {
  }
}
