/**
 * `create_edge_map` of ForestEdgeMap2.py: erosion with the 4-neighbour ring (no
 * centre), potential edges `data & ~eroded`, a convolution that counts
 * neighbouring potential edges (not non-forest neighbours, whatever the comment
 * there says), the rule "at least two", and the border forced to 0.
 */
module EdgeMap {
  import opened Grids
  import ForestMasks
  import BorderMask

  /**
   * `binary_erosion(data, structure=struct)` with the ring `[[0,1,0],[1,0,1],[0,1,0]]`:
   * the centre is not part of the structure, so a pixel survives iff its four
   * neighbours are foreground and inside the grid (`border_value=0`).
   */
  predicate ErodedByRing(d: Grid, r: int, c: int)
  {
    ForestMasks.Foreground(d, r - 1, c) && ForestMasks.Foreground(d, r + 1, c)
    && ForestMasks.Foreground(d, r, c - 1) && ForestMasks.Foreground(d, r, c + 1)
  }

  /**
   * `potential_edges = data & (~eroded_forest)`: the low bit of the sample where the
   * erosion removed the pixel, 0 where it kept it (`x & 1` is `x % 2` for every integer).
   */
  function Potential(d: Grid, r: int, c: int): (p: int)
    requires 0 <= r < |d| && 0 <= c < |d[r]|
    ensures p == 0 || p == 1
  {
    if ErodedByRing(d, r, c) then 0 else d[r][c] % 2
  }

  /** The potential-edge array read by `convolve(..., mode='constant', cval=0)`. */
  function PotentialOrZero(d: Grid, r: int, c: int): int
  {
    if 0 <= r < |d| && 0 <= c < |d[r]| then Potential(d, r, c) else 0
  }

  /** `convolve(potential_edges, kernel, mode='constant', cval=0)` with the ring kernel. */
  function NeighbourCount(d: Grid, r: int, c: int): (n: int)
    ensures 0 <= n <= 4
  {
    PotentialOrZero(d, r - 1, c) + PotentialOrZero(d, r + 1, c)
    + PotentialOrZero(d, r, c - 1) + PotentialOrZero(d, r, c + 1)
  }

  /** `edges = (non_forest_neighbors >= 2) & potential_edges`, before the border is cleared. */
  function CandidateEdges(d: Grid): (e: Grid)
    ensures |e| == |d|
    ensures forall r :: 0 <= r < |e| ==> |e[r]| == |d[r]|
  {
    seq(|d|, r requires 0 <= r < |d| =>
      seq(|d[r]|, c requires 0 <= c < |d[r]| =>
        if NeighbourCount(d, r, c) >= 2 then Potential(d, r, c) else 0))
  }

  /**
   * The edge map of an `h` by `w` band: `CandidateEdges` written into a fresh array,
   * then its border zeroed in place; `ok` is false where numpy raises IndexError
   * because a dimension is 0.
   */
  method CreateEdgeMap(data: Grid, h: nat, w: nat) returns (edges: array2<int>, ok: bool)
    requires IsGrid(data, h, w)
    ensures fresh(edges) && edges.Length0 == h && edges.Length1 == w
    ensures ok == (h > 0 && w > 0)
    ensures forall r, c :: 0 <= r < h && 0 <= c < w ==>
      edges[r, c] == if BorderMask.OnBorder(h, w, r, c) then 0 else CandidateEdges(data)[r][c]
  {
    var cand := CandidateEdges(data);
    edges := new int[h, w]((r, c) requires 0 <= r < h && 0 <= c < w => cand[r][c]);
    ghost var before := Contents(edges);
    ok := BorderMask.ZeroBorder(edges);
    forall r, c | 0 <= r < h && 0 <= c < w
      ensures edges[r, c] == if BorderMask.OnBorder(h, w, r, c) then 0 else cand[r][c]
    {
      assert Contents(edges)[r][c] == edges[r, c];
      assert before[r][c] == cand[r][c];
    }
  }

  /** Every edge is a potential edge, and every potential edge is a foreground (odd) pixel. */
  lemma EdgesArePotentialForeground(d: Grid, r: nat, c: nat)
    requires r < |d| && c < |d[r]|
    ensures CandidateEdges(d)[r][c] == 1 ==> Potential(d, r, c) == 1
    ensures Potential(d, r, c) == 1 ==> d[r][c] % 2 == 1 && d[r][c] != 0
  {
  }

  /** A pixel whose four neighbours are all inside the grid and foreground is not a potential edge. */
  lemma SurroundedIsNotPotential(d: Grid, h: nat, w: nat, r: nat, c: nat)
    requires IsGrid(d, h, w)
    requires 0 < r < h - 1 && 0 < c < w - 1
    requires d[r - 1][c] != 0 && d[r + 1][c] != 0 && d[r][c - 1] != 0 && d[r][c + 1] != 0
    ensures Potential(d, r, c) == 0
  {
  }

  /** A forest pixel (value 1) on the grid boundary is always a potential edge. */
  lemma BoundaryForestIsPotential(d: Grid, h: nat, w: nat, r: nat, c: nat)
    requires IsGrid(d, h, w)
    requires r < h && c < w && d[r][c] == 1
    requires BorderMask.OnBorder(h, w, r, c)
    ensures Potential(d, r, c) == 1
  {
  }

  /** An interior pixel is an edge iff it is a potential edge with at least two potential-edge neighbours. */
  lemma InteriorEdgeIff(d: Grid, h: nat, w: nat, r: nat, c: nat)
    requires IsGrid(d, h, w)
    requires r < h && c < w && !BorderMask.OnBorder(h, w, r, c)
    ensures CandidateEdges(d)[r][c] == 1 <==> Potential(d, r, c) == 1 && NeighbourCount(d, r, c) >= 2
    ensures CandidateEdges(d)[r][c] == 0 || CandidateEdges(d)[r][c] == 1
  {
  }

  /**
   * On a 0/1 map the potential edges of this script are exactly the edges of
   * `calculate_edge_density` (erosion by the cross compared with the map).
   */
  lemma PotentialMatchesErosionEdges(d: Grid, r: nat, c: nat)
    requires IsBinary(d)
    requires r < |d| && c < |d[r]|
    ensures Potential(d, r, c) == ForestMasks.ErosionEdges(d)[r][c]
  {
  }

  /**
   * A 3 by 3 forest square in the middle of a 5 by 5 non-forest band: the eight
   * ring pixels are potential edges, the centre is not; each corner has two
   * potential-edge neighbours and stays an edge, each side midpoint has only the
   * two corners beside it, and the centre has four but is not a potential edge.
   */
  lemma SquareExample(d: Grid)
    requires d == [[0, 0, 0, 0, 0], [0, 1, 1, 1, 0], [0, 1, 1, 1, 0], [0, 1, 1, 1, 0], [0, 0, 0, 0, 0]]
    ensures Potential(d, 2, 2) == 0 && Potential(d, 1, 1) == 1 && Potential(d, 1, 2) == 1
    ensures CandidateEdges(d)[1][1] == 1 && CandidateEdges(d)[1][2] == 1 && CandidateEdges(d)[2][2] == 0
    ensures CandidateEdges(d)[0][0] == 0
  {
    SquarePotentials(d);
    assert NeighbourCount(d, 0, 0) == 0;
    assert NeighbourCount(d, 1, 1) == 2;
    assert NeighbourCount(d, 1, 2) == 2;
    assert CandidateEdges(d)[0][0] == 0;
    assert CandidateEdges(d)[1][1] == 1;
    assert CandidateEdges(d)[1][2] == 1;
    assert CandidateEdges(d)[2][2] == 0;
  }

  /** The potential edges of the square example that its edge counts depend on. */
  lemma SquarePotentials(d: Grid)
    requires d == [[0, 0, 0, 0, 0], [0, 1, 1, 1, 0], [0, 1, 1, 1, 0], [0, 1, 1, 1, 0], [0, 0, 0, 0, 0]]
    ensures Potential(d, 0, 1) == 0 && Potential(d, 1, 0) == 0 && Potential(d, 0, 2) == 0
    ensures Potential(d, 1, 1) == 1 && Potential(d, 1, 2) == 1 && Potential(d, 1, 3) == 1
    ensures Potential(d, 2, 1) == 1 && Potential(d, 2, 2) == 0
  {
    assert !ErodedByRing(d, 1, 1) && !ErodedByRing(d, 1, 2) && !ErodedByRing(d, 1, 3) && !ErodedByRing(d, 2, 1);
    assert ErodedByRing(d, 2, 2);
  }
}
