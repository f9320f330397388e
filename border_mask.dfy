/**
 * `mask_outer_pixels`: the first and last row and column of a band are set to 0 in
 * place, with four numpy slice assignments. The same four assignments close
 * `create_edge_map`, which calls `ZeroBorder` from module EdgeMap.
 */
module BorderMask {
  import opened Grids

  predicate OnBorder(h: nat, w: nat, r: int, c: int)
  {
    r == 0 || r == h - 1 || c == 0 || c == w - 1
  }

  /** The band after the four assignments, as a value. */
  function ZeroedBorder(g: Grid, h: nat, w: nat): (z: Grid)
    requires IsGrid(g, h, w)
    ensures IsGrid(z, h, w)
  {
    seq(h, r requires 0 <= r < h =>
      seq(w, c requires 0 <= c < w => if OnBorder(h, w, r, c) then 0 else g[r][c]))
  }

  /**
   * `data[0, :] = 0; data[-1, :] = 0; data[:, 0] = 0; data[:, -1] = 0`.
   * With no rows, `data[0, :]` raises IndexError; with rows but no columns,
   * `data[:, 0]` does. `ok` is false exactly then, and the array (which has no
   * cells) is left alone.
   */
  method ZeroBorder(a: array2<int>) returns (ok: bool)
    modifies a
    ensures ok == (a.Length0 > 0 && a.Length1 > 0)
    ensures ok ==> Contents(a) == ZeroedBorder(old(Contents(a)), a.Length0, a.Length1)
    ensures !ok ==> Contents(a) == old(Contents(a))
  {
    var h, w := a.Length0, a.Length1;
    ghost var g := Contents(a);
    if h == 0 {
      return false;
    }
    for c := 0 to w
      invariant forall i, j :: 0 <= i < h && 0 <= j < w ==>
        a[i, j] == if i == 0 && j < c then 0 else g[i][j]
    {
      a[0, c] := 0;
    }
    for c := 0 to w
      invariant forall i, j :: 0 <= i < h && 0 <= j < w ==>
        a[i, j] == if i == 0 || (i == h - 1 && j < c) then 0 else g[i][j]
    {
      a[h - 1, c] := 0;
    }
    if w == 0 {
      assert Contents(a) == g;
      return false;
    }
    for r := 0 to h
      invariant forall i, j :: 0 <= i < h && 0 <= j < w ==>
        a[i, j] == if i == 0 || i == h - 1 || (j == 0 && i < r) then 0 else g[i][j]
    {
      a[r, 0] := 0;
    }
    for r := 0 to h
      invariant forall i, j :: 0 <= i < h && 0 <= j < w ==>
        a[i, j] == if i == 0 || i == h - 1 || j == 0 || (j == w - 1 && i < r) then 0 else g[i][j]
    {
      a[r, w - 1] := 0;
    }
    ok := true;
    forall i | 0 <= i < h ensures Contents(a)[i] == ZeroedBorder(g, h, w)[i] {
    }
  }

  /** Every cell of the first and last row and column is 0 afterwards. */
  lemma BorderCellsAreZero(g: Grid, h: nat, w: nat, r: nat, c: nat)
    requires IsGrid(g, h, w)
    requires r < h && c < w && OnBorder(h, w, r, c)
    ensures ZeroedBorder(g, h, w)[r][c] == 0
  {
  }

  /** Every interior cell keeps its value. */
  lemma InteriorCellsKept(g: Grid, h: nat, w: nat, r: nat, c: nat)
    requires IsGrid(g, h, w)
    requires 0 < r < h - 1 && 0 < c < w - 1
    ensures ZeroedBorder(g, h, w)[r][c] == g[r][c]
  {
  }

  /** Zeroing the border twice is the same as zeroing it once. */
  lemma ZeroedBorderIdempotent(g: Grid, h: nat, w: nat)
    requires IsGrid(g, h, w)
    ensures ZeroedBorder(ZeroedBorder(g, h, w), h, w) == ZeroedBorder(g, h, w)
  {
    var z := ZeroedBorder(g, h, w);
    forall i | 0 <= i < h ensures ZeroedBorder(z, h, w)[i] == z[i] {
    }
  }

  /** A band with a single row or a single column becomes all zeros. */
  lemma ThinBandAllZero(g: Grid, h: nat, w: nat)
    requires IsGrid(g, h, w)
    requires h == 1 || w == 1
    ensures forall r, c :: 0 <= r < h && 0 <= c < w ==> ZeroedBorder(g, h, w)[r][c] == 0
  {
  }
}
