/**
 * CompositeCode.py: the composite score `dpi * (7 - uncert)` and its
 * categorisation into seven classes, done as a zero fill followed by six masked
 * assignments.
 */
module Composite {
  import opened Grids
  import opened Wrappers

  /** `dpi_data * (7 - uncert_data)`, element by element, for two bands of one shape. */
  function CompositeScore(dpi: Grid, uncert: Grid, h: nat, w: nat): (s: Grid)
    requires IsGrid(dpi, h, w) && IsGrid(uncert, h, w)
    ensures IsGrid(s, h, w)
  {
    seq(h, r requires 0 <= r < h => seq(w, c requires 0 <= c < w => dpi[r][c] * (7 - uncert[r][c])))
  }

  /** With both classes in 1..6, as the script assumes, the score lies in 1..36. */
  lemma ScoreRange(dpi: Grid, uncert: Grid, h: nat, w: nat, r: nat, c: nat)
    requires IsGrid(dpi, h, w) && IsGrid(uncert, h, w) && r < h && c < w
    requires 1 <= dpi[r][c] <= 6 && 1 <= uncert[r][c] <= 6
    ensures 1 <= CompositeScore(dpi, uncert, h, w)[r][c] <= 36
  {
    var d, u := dpi[r][c], uncert[r][c];
    assert 1 <= 7 - u <= 6;
    assert d * (7 - u) <= 6 * (7 - u) <= 36;
    assert d * (7 - u) >= 1 * (7 - u) >= 1;
  }

  /** The class of one score: the closed form of the six masked assignments. */
  function Category(s: int): (k: int)
    ensures 0 <= k <= 6
  {
    if s >= 30 then 6
    else if s >= 24 then 5
    else if s >= 18 then 4
    else if s >= 12 then 3
    else if s >= 6 then 2
    else if s >= 1 then 1
    else 0
  }

  /** `categorized_score` as a value. */
  function CategoryMap(score: Grid, h: nat, w: nat): (m: Grid)
    requires IsGrid(score, h, w)
    ensures IsGrid(m, h, w)
  {
    seq(h, r requires 0 <= r < h => seq(w, c requires 0 <= c < w => Category(score[r][c])))
  }

  /** The band `lo <= s < hi` of one masked assignment; `None` is the open top band. */
  predicate InBand(s: int, lo: int, hi: Option<int>)
  {
    lo <= s && (hi.None? || s < hi.value)
  }

  /** The band after `categorized[(score >= lo) & (score < hi)] = v`, as a value. */
  function Assigned(g: Grid, score: Grid, h: nat, w: nat, lo: int, hi: Option<int>, v: int): (z: Grid)
    requires IsGrid(g, h, w) && IsGrid(score, h, w)
    ensures IsGrid(z, h, w)
  {
    seq(h, r requires 0 <= r < h => seq(w, c requires 0 <= c < w => if InBand(score[r][c], lo, hi) then v else g[r][c]))
  }

  /** One masked assignment, cell by cell. */
  method AssignWhere(a: array2<int>, score: Grid, lo: int, hi: Option<int>, v: int)
    requires IsGrid(score, a.Length0, a.Length1)
    modifies a
    ensures Contents(a) == Assigned(old(Contents(a)), score, a.Length0, a.Length1, lo, hi, v)
  {
    ghost var g := Contents(a);
    for r := 0 to a.Length0
      invariant forall i, j :: 0 <= i < a.Length0 && 0 <= j < a.Length1 ==>
        a[i, j] == if i < r && InBand(score[i][j], lo, hi) then v else g[i][j]
    {
      for c := 0 to a.Length1
        invariant forall i, j :: 0 <= i < a.Length0 && 0 <= j < a.Length1 ==>
          a[i, j] == if (i < r || (i == r && j < c)) && InBand(score[i][j], lo, hi) then v else g[i][j]
      {
        if InBand(score[r][c], lo, hi) {
          a[r, c] := v;
        }
      }
    }
    forall i | 0 <= i < a.Length0 ensures Contents(a)[i] == Assigned(g, score, a.Length0, a.Length1, lo, hi, v)[i] {
    }
  }

  /** `categorize_composite_score`: a zero fill, then the six assignments in the script's order. */
  method Categorize(score: Grid, h: nat, w: nat) returns (a: array2<int>)
    requires IsGrid(score, h, w)
    ensures fresh(a) && a.Length0 == h && a.Length1 == w
    ensures Contents(a) == CategoryMap(score, h, w)
  {
    a := new int[h, w]((r, c) => 0);
    ghost var z := Contents(a);
    AssignWhere(a, score, 30, None, 6);
    AssignWhere(a, score, 24, Some(30), 5);
    AssignWhere(a, score, 18, Some(24), 4);
    AssignWhere(a, score, 12, Some(18), 3);
    AssignWhere(a, score, 6, Some(12), 2);
    AssignWhere(a, score, 1, Some(6), 1);
    SixAssignmentsAreCategory(score, h, w, z);
  }

  /** A zero-filled band. */
  predicate AllZero(g: Grid)
  {
    forall r, c :: 0 <= r < |g| && 0 <= c < |g[r]| ==> g[r][c] == 0
  }

  /** The six assignments on a zero fill give the closed form `Category` at every cell. */
  lemma SixAssignmentsAreCategory(score: Grid, h: nat, w: nat, z: Grid)
    requires IsGrid(score, h, w) && IsGrid(z, h, w) && AllZero(z)
    ensures
      var a6 := Assigned(z, score, h, w, 30, None, 6);
      var a5 := Assigned(a6, score, h, w, 24, Some(30), 5);
      var a4 := Assigned(a5, score, h, w, 18, Some(24), 4);
      var a3 := Assigned(a4, score, h, w, 12, Some(18), 3);
      var a2 := Assigned(a3, score, h, w, 6, Some(12), 2);
      Assigned(a2, score, h, w, 1, Some(6), 1) == CategoryMap(score, h, w)
  {
    var a6 := Assigned(z, score, h, w, 30, None, 6);
    var a5 := Assigned(a6, score, h, w, 24, Some(30), 5);
    var a4 := Assigned(a5, score, h, w, 18, Some(24), 4);
    var a3 := Assigned(a4, score, h, w, 12, Some(18), 3);
    var a2 := Assigned(a3, score, h, w, 6, Some(12), 2);
    var a1 := Assigned(a2, score, h, w, 1, Some(6), 1);
    forall r | 0 <= r < h ensures a1[r] == CategoryMap(score, h, w)[r] {
      forall c | 0 <= c < w ensures a1[r][c] == Category(score[r][c]) {
        assert z[r][c] == 0;
      }
    }
  }

  /** A higher score never gets a lower class. */
  lemma CategoryMonotone(s: int, t: int)
    requires s <= t
    ensures Category(s) <= Category(t)
  {
  }

  /** Between 6 and 30 the classes are six-point bands: the class is `s / 6 + 1`. */
  lemma CategoryIsSixPointBands(s: int)
    requires 6 <= s < 30
    ensures Category(s) == s / 6 + 1
  {
  }

  /** Two assignments whose bands are disjoint can be swapped: each pixel is written at most once. */
  lemma DisjointAssignmentsCommute(g: Grid, score: Grid, h: nat, w: nat,
                                   lo1: int, hi1: int, v1: int, lo2: int, hi2: Option<int>, v2: int)
    requires IsGrid(g, h, w) && IsGrid(score, h, w)
    requires hi1 <= lo2
    ensures Assigned(Assigned(g, score, h, w, lo1, Some(hi1), v1), score, h, w, lo2, hi2, v2)
         == Assigned(Assigned(g, score, h, w, lo2, hi2, v2), score, h, w, lo1, Some(hi1), v1)
  {
    var x := Assigned(Assigned(g, score, h, w, lo1, Some(hi1), v1), score, h, w, lo2, hi2, v2);
    var y := Assigned(Assigned(g, score, h, w, lo2, hi2, v2), score, h, w, lo1, Some(hi1), v1);
    forall r | 0 <= r < h ensures x[r] == y[r] {
    }
  }

  /** With both inputs in 1..6 every pixel gets a class from 1 to 6; class 0 never occurs. */
  lemma ValidInputsNeverZero(dpi: Grid, uncert: Grid, h: nat, w: nat, r: nat, c: nat)
    requires IsGrid(dpi, h, w) && IsGrid(uncert, h, w) && r < h && c < w
    requires 1 <= dpi[r][c] <= 6 && 1 <= uncert[r][c] <= 6
    ensures 1 <= CategoryMap(CompositeScore(dpi, uncert, h, w), h, w)[r][c] <= 6
  {
    ScoreRange(dpi, uncert, h, w, r, c);
  }
}
