/**
 * `calculate_and_resample_distance` of DistanceToForestEdge2.py, without the
 * raster I/O: the nodata rewrite, the mask `data > 0`, an `inf` distance map, and
 * one radial search per sampled centre. The sampling steps `int(400 / res)` are
 * parameters.
 */
module DistanceMap {
  import opened Grids
  import opened Wrappers
  import Nodata
  import opened RadialSearch

  /** `data[data == nodata] = 0` when the raster declares a nodata value. */
  function Prepared(g: Grid, nodata: Option<int>): (z: Grid)
    ensures |z| == |g|
    ensures forall r :: 0 <= r < |g| ==> |z[r]| == |g[r]|
  {
    match nodata
    case None => g
    case Some(v) => Nodata.ReplaceValue(g, v, 0)
  }

  /** `mask = data > 0`: True for forest, False for background. */
  function ForestMask(g: Grid): (m: seq<seq<bool>>)
    ensures |m| == |g|
    ensures forall r :: 0 <= r < |g| ==> |m[r]| == |g[r]|
  {
    seq(|g|, r requires 0 <= r < |g| => seq(|g[r]|, c requires 0 <= c < |g[r]| => g[r][c] > 0))
  }

  /** `v in range(start, stop, step)` for a non-zero `step`. */
  predicate InPyRange(start: int, stop: int, step: int, v: int)
  {
    if step > 0 then start <= v < stop && (v - start) % step == 0
    else if step < 0 then stop < v <= start && (start - v) % (-step) == 0
    else false
  }

  /** `range(start, stop, step)` yields nothing (for a non-zero `step`). */
  predicate PyRangeEmpty(start: int, stop: int, step: int)
  {
    if step > 0 then start >= stop else start <= stop
  }

  /** `v` is a centre coordinate along an axis of length `n` sampled every `step` cells. */
  predicate IsCentre(step: int, n: nat, v: int)
  {
    InPyRange(step / 2, n, step, v)
  }

  /**
   * The comprehension building `centers` raises ValueError when a step is 0: the
   * outer `range` always, the inner one only when the outer yields a row.
   */
  predicate CentresDefined(stepX: int, stepY: int, h: nat)
  {
    stepX != 0 && (stepY != 0 || PyRangeEmpty(stepX / 2, h, stepX))
  }

  /**
   * The band is rewritten in place; `ok` is false where the comprehension raises.
   * Where it does not, each centre holds a result of the search from that centre
   * over the mask of the rewritten band, and every other cell stays infinite.
   */
  method CalculateDistance(data: array2<int>, nodata: Option<int>, stepX: int, stepY: int)
    returns (distanceMap: array2<Dist>, ok: bool)
    modifies data
    ensures Contents(data) == Prepared(old(Contents(data)), nodata)
    ensures fresh(distanceMap) && distanceMap.Length0 == data.Length0 && distanceMap.Length1 == data.Length1
    ensures ok == CentresDefined(stepX, stepY, data.Length0)
    ensures forall r, c :: 0 <= r < data.Length0 && 0 <= c < data.Length1 ==>
      CellFilled(ForestMask(Contents(data)), data.Length0, data.Length1, stepX, stepY, r, c, distanceMap[r, c], ok)
  {
    var h, w := data.Length0, data.Length1;
    if nodata.Some? {
      Nodata.ReplaceInPlace(data, nodata.value, 0);
    }
    var g := seq(h, r requires 0 <= r < h reads data => seq(w, c requires 0 <= c < w reads data => data[r, c]));
    forall r | 0 <= r < h ensures g[r] == Contents(data)[r] {
    }
    var mask := ForestMask(g);
    ok := CentresDefined(stepX, stepY, h);
    distanceMap := FillCentres(mask, h, w, stepX, stepY, ok);
  }

  /**
   * `distance_map = np.full(data.shape, np.inf)` and the loop over `centers`;
   * `ok` says whether the comprehension is defined; when it is not, the map stays
   * infinite.
   */
  method FillCentres(mask: seq<seq<bool>>, h: nat, w: nat, stepX: int, stepY: int, ok: bool)
    returns (distanceMap: array2<Dist>)
    requires IsGrid(mask, h, w)
    requires ok == CentresDefined(stepX, stepY, h)
    ensures fresh(distanceMap) && distanceMap.Length0 == h && distanceMap.Length1 == w
    ensures forall r, c :: 0 <= r < h && 0 <= c < w ==>
      CellFilled(mask, h, w, stepX, stepY, r, c, distanceMap[r, c], ok)
  {
    distanceMap := new Dist[h, w]((r, c) => Infinite);
    if !ok || stepX < 0 {
      forall r, c | 0 <= r < h && 0 <= c < w ensures CellFilled(mask, h, w, stepX, stepY, r, c, distanceMap[r, c], ok) {
        if ok {
          NegativeStepNoCentres(stepX, h, r);
        }
      }
      return;
    }
    var x := stepX / 2;
    while x < h
      invariant stepX / 2 <= x && (x - stepX / 2) % stepX == 0
      invariant CentresFilled(mask, h, w, stepX, stepY, Contents(distanceMap), x, 0)
      modifies distanceMap
      decreases h - x
    {
      ghost var y: int := 0;
      if stepY > 0 {
        StartRow(mask, h, w, stepX, stepY, Contents(distanceMap), x);
        var y' := stepY / 2;
        while y' < w
          invariant stepY / 2 <= y' && (y' - stepY / 2) % stepY == 0
          invariant CentresFilled(mask, h, w, stepX, stepY, Contents(distanceMap), x, y')
          modifies distanceMap
          decreases w - y'
        {
          var d := RadialDistanceSearch(mask, h, w, x, y');
          ghost var before := Contents(distanceMap);
          distanceMap[x, y'] := d;
          assert Contents(distanceMap) == before[x := before[x][y' := d]] by {
            forall r | 0 <= r < h ensures Contents(distanceMap)[r] == before[x := before[x][y' := d]][r] {
            }
          }
          FillStep(mask, h, w, stepX, stepY, before, x, y', d);
          NextCentre(stepY, w, y');
          y' := y' + stepY;
        }
        y := y';
      }
      AdvanceRow(mask, h, w, stepX, stepY, Contents(distanceMap), x, y);
      x := x + stepX;
    }
    forall r, c | 0 <= r < h && 0 <= c < w ensures CellFilled(mask, h, w, stepX, stepY, r, c, distanceMap[r, c], ok) {
      assert distanceMap[r, c] == Contents(distanceMap)[r][c];
    }
  }

  /**
   * What a cell of the distance map holds: a search result at a centre once the
   * comprehension is defined (`filled`), infinity everywhere else.
   */
  ghost predicate CellFilled(mask: seq<seq<bool>>, h: nat, w: nat, stepX: int, stepY: int, r: int, c: int,
                             v: Dist, filled: bool)
    requires IsGrid(mask, h, w) && InGrid(h, w, r, c)
  {
    if filled && IsCentre(stepX, h, r) && IsCentre(stepY, w, c) then SearchResult(mask, h, w, r, c, v)
    else v == Infinite
  }

  /** The centres before `(x, y)` in row-major order are filled in `m`, and nothing else. */
  ghost predicate CentresFilled(mask: seq<seq<bool>>, h: nat, w: nat, stepX: int, stepY: int,
                                m: seq<seq<Dist>>, x: int, y: int)
    requires IsGrid(mask, h, w)
  {
    IsGrid(m, h, w)
    && forall r, c :: 0 <= r < h && 0 <= c < w ==>
      CellFilled(mask, h, w, stepX, stepY, r, c, m[r][c], r < x || (r == x && c < y))
  }

  /** No column before `stepY / 2` is a centre. */
  lemma StartRow(mask: seq<seq<bool>>, h: nat, w: nat, stepX: int, stepY: int, m: seq<seq<Dist>>, x: int)
    requires IsGrid(mask, h, w) && stepY > 0
    requires CentresFilled(mask, h, w, stepX, stepY, m, x, 0)
    ensures CentresFilled(mask, h, w, stepX, stepY, m, x, stepY / 2)
  {
  }

  /** Writing the search result of the centre `(x, y)` moves the filled prefix to the next column centre. */
  lemma FillStep(mask: seq<seq<bool>>, h: nat, w: nat, stepX: int, stepY: int, m: seq<seq<Dist>>,
                 x: int, y: int, d: Dist)
    requires IsGrid(mask, h, w) && stepX > 0 && stepY > 0
    requires stepX / 2 <= x < h && (x - stepX / 2) % stepX == 0
    requires stepY / 2 <= y < w && (y - stepY / 2) % stepY == 0
    requires CentresFilled(mask, h, w, stepX, stepY, m, x, y)
    requires SearchResult(mask, h, w, x, y, d)
    ensures CentresFilled(mask, h, w, stepX, stepY, m[x := m[x][y := d]], x, y + stepY)
  {
    NextCentre(stepY, w, y);
    var m' := m[x := m[x][y := d]];
    forall r, c | 0 <= r < h && 0 <= c < w
      ensures CellFilled(mask, h, w, stepX, stepY, r, c, m'[r][c], r < x || (r == x && c < y + stepY))
    {
      if r == x && y < c < y + stepY {
        assert !IsCentre(stepY, w, c);
      }
    }
  }

  /** After the last column centre of row `x` (or with no column centres), the rows up to the next centre row are done. */
  lemma AdvanceRow(mask: seq<seq<bool>>, h: nat, w: nat, stepX: int, stepY: int, m: seq<seq<Dist>>, x: int, y: int)
    requires IsGrid(mask, h, w) && stepX > 0
    requires stepX / 2 <= x && (x - stepX / 2) % stepX == 0
    requires CentresFilled(mask, h, w, stepX, stepY, m, x, y)
    requires y >= w || stepY <= 0
    ensures CentresFilled(mask, h, w, stepX, stepY, m, x + stepX, 0)
    ensures (x + stepX - stepX / 2) % stepX == 0
  {
    NextCentre(stepX, h, x);
    forall r, c | 0 <= r < h && 0 <= c < w
      ensures CellFilled(mask, h, w, stepX, stepY, r, c, m[r][c], r < x + stepX)
    {
      if r == x && stepY <= 0 {
        if stepY < 0 {
          NegativeStepNoCentres(stepY, w, c);
        }
      }
      if x < r < x + stepX {
        assert !IsCentre(stepX, h, r);
      }
    }
  }

  /** Between one centre and the next, `step` cells later, there is no centre. */
  lemma NextCentre(step: int, n: nat, v: int)
    requires step > 0 && step / 2 <= v && (v - step / 2) % step == 0
    ensures forall u :: v < u < v + step ==> !IsCentre(step, n, u)
    ensures (v + step - step / 2) % step == 0
  {
    var a := v - step / 2;
    var q := a / step;
    ModUnique(a, step, q, 0);
    forall u | v < u < v + step ensures !IsCentre(step, n, u) {
      ModUnique(u - step / 2, step, q, u - v);
    }
    ModUnique(a + step, step, q + 1, 0);
  }

  /** Euclidean division is unique: `a == q * m + r` with `0 <= r < m` fixes `a / m` and `a % m`. */
  lemma ModUnique(a: int, m: int, q: int, r: int)
    requires m > 0 && 0 <= r < m
    requires a == q * m + r || (r == 0 && a % m == 0 && q == a / m)
    ensures a % m == r && a == q * m + r
  {
    var q', r' := a / m, a % m;
    assert a == q' * m + r';
    if a == q * m + r {
      MulLess(q, q' + 1, m);
      MulLess(q', q + 1, m);
    }
  }

  lemma MulLess(x: int, y: int, m: int)
    requires m > 0 && x * m < y * m
    ensures x < y
  {
    assert (y - x) * m == y * m - x * m;
  }

  /** The centres along an axis sampled with a positive step are `step / 2`, `step / 2 + step`, ... below `n`. */
  lemma CentresAreRegular(step: int, n: nat, i: nat)
    requires step > 0 && step / 2 + i * step < n
    ensures IsCentre(step, n, step / 2 + i * step)
  {
  }

  /** A negative step samples no centre: the range starts below 0 and counts down. */
  lemma NegativeStepNoCentres(step: int, n: nat, v: int)
    requires step < 0
    ensures !IsCentre(step, n, v)
  {
  }

  /** After the rewrite, a sample that equalled the declared nodata value is background. */
  lemma NodataIsBackground(g: Grid, v: int, r: nat, c: nat)
    requires r < |g| && c < |g[r]| && g[r][c] == v
    ensures !ForestMask(Prepared(g, Some(v)))[r][c]
  {
    Nodata.ReplacedCells(g, v, 0, r, c);
  }

  /** Every other sample is forest exactly when it is positive. */
  lemma OtherSamplesKeepTheirClass(g: Grid, nodata: Option<int>, r: nat, c: nat)
    requires r < |g| && c < |g[r]|
    requires nodata.None? || g[r][c] != nodata.value
    ensures ForestMask(Prepared(g, nodata))[r][c] <==> g[r][c] > 0
  {
    if nodata.Some? {
      Nodata.ReplacedCells(g, nodata.value, 0, r, c);
    }
  }

  /** A zero step always raises; with a non-zero row step, a zero column step raises iff some row is sampled. */
  lemma ZeroStepRaises(stepX: int, stepY: int, h: nat)
    ensures stepX == 0 ==> !CentresDefined(stepX, stepY, h)
    ensures stepX != 0 && stepY == 0 ==>
      (CentresDefined(stepX, stepY, h) <==> forall v :: !IsCentre(stepX, h, v))
  {
    if stepX > 0 && stepY == 0 && !PyRangeEmpty(stepX / 2, h, stepX) {
      assert IsCentre(stepX, h, stepX / 2);
    }
    if stepX < 0 && stepY == 0 {
      forall v ensures !IsCentre(stepX, h, v) {
        NegativeStepNoCentres(stepX, h, v);
      }
    }
  }
}
