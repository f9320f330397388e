/**
 * training_script.py: the `DeforestationDataset` that cuts a raster into 40x40
 * blocks, numbers them row by row, decodes each pixel into a confidence and a
 * date, and labels a block by whether the ground truth shows loss within 180
 * days after the input date. The network, its training and the float
 * normalisation are not part of this model.
 */
module SuperpixelTraining {
  import opened Grids
  import opened Dtypes

  const BlockSize := 40
  const DateModulus := 10000
  const LookAhead := 180

  /** `value // 10000`: the leading confidence digits. */
  function Confidence(v: int): int
  {
    v / DateModulus
  }

  /** `value % 10000`: the last four digits, a day count. */
  function Date(v: int): int
  {
    v % DateModulus
  }

  /** Every value decodes into a confidence and a date in [0, 10000) that give it back. */
  lemma DecodeIdentity(v: int)
    ensures v == Confidence(v) * DateModulus + Date(v)
    ensures 0 <= Date(v) < DateModulus
  {
  }

  /** The decoding is the only such split of a value. */
  lemma DecodeUnique(v: int, conf: int, date: int)
    requires 0 <= date < DateModulus && v == conf * DateModulus + date
    ensures conf == Confidence(v) && date == Date(v)
  {
  }

  /** `read(1, window=Window(x*40, y*40, 40, 40))`: 40 rows from row `y*40`, 40 columns from column `x*40`. */
  function ReadWindow(g: Grid, height: nat, width: nat, x: nat, y: nat): (b: Grid)
    requires IsGrid(g, height, width)
    requires x * BlockSize + BlockSize <= width && y * BlockSize + BlockSize <= height
    ensures IsGrid(b, BlockSize, BlockSize)
  {
    seq(BlockSize, r requires 0 <= r < BlockSize =>
      seq(BlockSize, c requires 0 <= c < BlockSize => g[y * BlockSize + r][x * BlockSize + c]))
  }

  /**
   * A pixel of the band's type decodes into a confidence and a date of that
   * type: of the three array operations only the subtraction can wrap.
   */
  lemma DecodeStaysInType(t: IntType, v: int)
    requires t.InRange(v)
    ensures t.InRange(Confidence(v)) && t.InRange(Date(v))
  {
  }

  /**
   * The network inputs before normalisation: confidence and days since the
   * reference date. `date - reference_date` is computed at the band's type
   * `t`, so on an unsigned band a date before the reference date wraps around.
   */
  function Features(block: Grid, referenceDate: int, t: IntType): (f: (Grid, Grid))
    requires IsGrid(block, BlockSize, BlockSize)
    ensures IsGrid(f.0, BlockSize, BlockSize) && IsGrid(f.1, BlockSize, BlockSize)
  {
    (seq(BlockSize, r requires 0 <= r < BlockSize =>
       seq(BlockSize, c requires 0 <= c < BlockSize => Confidence(block[r][c]))),
     seq(BlockSize, r requires 0 <= r < BlockSize =>
       seq(BlockSize, c requires 0 <= c < BlockSize => Wrap(t, Date(block[r][c]) - referenceDate))))
  }

  /**
   * The features give the raw pixel back: `confidence * 10000 + days +
   * reference_date`, computed at the band's type, is the pixel. Without
   * wrap-around, that is when the day difference is a value of the type, the
   * sum is the pixel itself and `days + reference_date` lies in [0, 10000).
   */
  lemma FeaturesDecode(block: Grid, referenceDate: int, t: IntType, r: nat, c: nat)
    requires IsGrid(block, BlockSize, BlockSize) && r < BlockSize && c < BlockSize
    ensures var f := Features(block, referenceDate, t);
      && t.InRange(f.1[r][c])
      && (t.InRange(block[r][c]) ==>
            Wrap(t, f.0[r][c] * DateModulus + f.1[r][c] + referenceDate) == block[r][c])
      && (t.InRange(Date(block[r][c]) - referenceDate) ==>
            f.0[r][c] * DateModulus + f.1[r][c] + referenceDate == block[r][c] &&
            0 <= f.1[r][c] + referenceDate < DateModulus)
  {
    var v := block[r][c];
    var f := Features(block, referenceDate, t);
    DecodeIdentity(v);
    var d := Date(v) - referenceDate;
    assert f.1[r][c] == Wrap(t, d);
    SameBitsSymmetric(t, d, Wrap(t, d));
    assert f.0[r][c] * DateModulus + f.1[r][c] + referenceDate - v == Wrap(t, d) - d;
    if t.InRange(v) {
      WrapUnique(t, f.0[r][c] * DateModulus + f.1[r][c] + referenceDate, v);
    }
    if t.InRange(d) {
      WrapInRange(t, d);
    }
  }

  /** An alert date before a reference date of 2000 days wraps to a large day count on a uint16 band. */
  lemma UnsignedWrapExample(block: Grid)
    requires IsGrid(block, BlockSize, BlockSize) && block[0][0] == 0
    ensures Features(block, 2000, UInt16).1[0][0] == 63536
  {
    UInt16Example();
  }

  /**
   * `(gt % 10000 > date) & (gt % 10000 <= date + 180)` for one pixel. The dates
   * are below 10000, so `date + 180` fits every modelled type and needs no wrap.
   */
  predicate DeforestedSoon(v: int, gt: int)
  {
    Date(v) < Date(gt) <= Date(v) + LookAhead
  }

  /** `np.any` over one row of the elementwise test. */
  predicate AnyInRow(inRow: seq<int>, gtRow: seq<int>)
    requires |inRow| == |gtRow|
    decreases |inRow|
  {
    |inRow| > 0 && (DeforestedSoon(inRow[0], gtRow[0]) || AnyInRow(inRow[1..], gtRow[1..]))
  }

  /** `np.any` over a block of the elementwise test, row by row. */
  predicate AnyInBlock(inBlock: Grid, gtBlock: Grid, n: nat)
    requires |inBlock| == |gtBlock| && forall r :: 0 <= r < |inBlock| ==> |inBlock[r]| == |gtBlock[r]|
    requires n <= |inBlock|
  {
    n > 0 && (AnyInBlock(inBlock, gtBlock, n - 1) || AnyInRow(inBlock[n - 1], gtBlock[n - 1]))
  }

  lemma {:induction false} AnyInRowIff(inRow: seq<int>, gtRow: seq<int>)
    requires |inRow| == |gtRow|
    ensures AnyInRow(inRow, gtRow) <==> exists c :: 0 <= c < |inRow| && DeforestedSoon(inRow[c], gtRow[c])
    decreases |inRow|
  {
    if |inRow| > 0 {
      AnyInRowIff(inRow[1..], gtRow[1..]);
      if exists c :: 0 <= c < |inRow| && DeforestedSoon(inRow[c], gtRow[c]) {
        var c :| 0 <= c < |inRow| && DeforestedSoon(inRow[c], gtRow[c]);
        if c > 0 {
          assert inRow[1..][c - 1] == inRow[c] && gtRow[1..][c - 1] == gtRow[c];
        }
      }
      if AnyInRow(inRow[1..], gtRow[1..]) && !DeforestedSoon(inRow[0], gtRow[0]) {
        var c :| 0 <= c < |inRow| - 1 && DeforestedSoon(inRow[1..][c], gtRow[1..][c]);
        assert DeforestedSoon(inRow[c + 1], gtRow[c + 1]);
      }
    }
  }

  /** The label is true iff some pixel of the block has its ground-truth date within 180 days after its input date. */
  lemma {:induction false} AnyInBlockIff(inBlock: Grid, gtBlock: Grid, n: nat)
    requires |inBlock| == |gtBlock| && forall r :: 0 <= r < |inBlock| ==> |inBlock[r]| == |gtBlock[r]|
    requires n <= |inBlock|
    ensures AnyInBlock(inBlock, gtBlock, n) <==>
      exists r, c :: 0 <= r < n && 0 <= c < |inBlock[r]| && DeforestedSoon(inBlock[r][c], gtBlock[r][c])
    decreases n
  {
    if n > 0 {
      AnyInBlockIff(inBlock, gtBlock, n - 1);
      AnyInRowIff(inBlock[n - 1], gtBlock[n - 1]);
      if exists r, c :: 0 <= r < n && 0 <= c < |inBlock[r]| && DeforestedSoon(inBlock[r][c], gtBlock[r][c]) {
        var r, c :| 0 <= r < n && 0 <= c < |inBlock[r]| && DeforestedSoon(inBlock[r][c], gtBlock[r][c]);
        if r == n - 1 {
          assert AnyInRow(inBlock[n - 1], gtBlock[n - 1]);
        }
      }
    }
  }

  /** One item: the two feature planes and the label. */
  datatype Sample = Sample(confidence: Grid, days: Grid, future: bool)

  /** A dataset over an input raster of type `dtype` and a ground-truth raster of the same shape. */
  datatype Dataset = Dataset(input: Grid, groundTruth: Grid, height: nat, width: nat, referenceDate: int, dtype: IntType)
  {
    predicate Valid()
    {
      IsGrid(input, height, width) && IsGrid(groundTruth, height, width)
    }

    /** `width // 40` */
    function NumBlocksX(): nat
    {
      width / BlockSize
    }

    /** `height // 40` */
    function NumBlocksY(): nat
    {
      height / BlockSize
    }

    /** `__len__`: the number of whole 40x40 blocks. */
    function Len(): nat
    {
      NumBlocksX() * NumBlocksY()
    }

    /** `x = idx % num_blocks_x`, `y = idx // num_blocks_x`: blocks are numbered row by row. */
    function BlockIndex(idx: nat): (xy: (nat, nat))
      requires idx < Len()
      ensures xy.0 < NumBlocksX() && xy.1 < NumBlocksY()
      ensures idx == xy.1 * NumBlocksX() + xy.0
    {
      var nbx := NumBlocksX();
      assert nbx > 0;
      DivBelow(idx, nbx, NumBlocksY());
      (idx % nbx, idx / nbx)
    }

    /** `__getitem__` */
    function GetItem(idx: nat): (s: Sample)
      requires Valid() && idx < Len()
      ensures IsGrid(s.confidence, BlockSize, BlockSize) && IsGrid(s.days, BlockSize, BlockSize)
    {
      var xy := BlockIndex(idx);
      WindowInside(xy.0, xy.1, NumBlocksX(), NumBlocksY(), width, height);
      var inBlock := ReadWindow(input, height, width, xy.0, xy.1);
      var gtBlock := ReadWindow(groundTruth, height, width, xy.0, xy.1);
      var f := Features(inBlock, referenceDate, dtype);
      Sample(f.0, f.1, AnyInBlock(inBlock, gtBlock, BlockSize))
    }
  }

  /** An index below `a * b` has a quotient by `a` below `b`. */
  lemma DivBelow(idx: nat, a: nat, b: nat)
    requires a > 0 && idx < a * b
    ensures idx / a < b
  {
    var q := idx / a;
    if q >= b {
      MulLe(b, q, a);
    }
  }

  lemma MulLe(b: nat, q: nat, a: nat)
    requires b <= q
    ensures b * a <= q * a
  {
  }

  /** Block `(x, y)` of a `nbx` by `nby` block grid lies inside the raster. */
  lemma WindowInside(x: nat, y: nat, nbx: nat, nby: nat, width: nat, height: nat)
    requires nbx == width / BlockSize && nby == height / BlockSize && x < nbx && y < nby
    ensures x * BlockSize + BlockSize <= width && y * BlockSize + BlockSize <= height
  {
  }

  /** Rasters narrower or lower than 40 pixels give an empty dataset. */
  lemma SmallRasterIsEmpty(ds: Dataset)
    requires ds.width < BlockSize || ds.height < BlockSize
    ensures ds.Len() == 0
  {
  }

  /** Every block of the block grid is the item of exactly one index, `y * nbx + x`. */
  lemma BlockIndexBijective(ds: Dataset, x: nat, y: nat)
    requires x < ds.NumBlocksX() && y < ds.NumBlocksY()
    ensures y * ds.NumBlocksX() + x < ds.Len()
    ensures ds.BlockIndex(y * ds.NumBlocksX() + x) == (x, y)
    ensures forall idx :: 0 <= idx < ds.Len() && ds.BlockIndex(idx) == (x, y) ==> idx == y * ds.NumBlocksX() + x
  {
    var nbx, nby := ds.NumBlocksX(), ds.NumBlocksY();
    var idx := y * nbx + x;
    MulLe(y + 1, nby, nbx);
    assert idx < (y + 1) * nbx;
    assert idx < ds.Len();
    var xy := ds.BlockIndex(idx);
    assert idx == xy.1 * nbx + xy.0;
    QuotientUnique(idx, nbx, y, x, xy.1, xy.0);
  }

  /** Two splits `q * n + r` with `0 <= r < n` of the same number coincide. */
  lemma QuotientUnique(idx: nat, n: nat, q1: nat, r1: nat, q2: nat, r2: nat)
    requires r1 < n && r2 < n && idx == q1 * n + r1 && idx == q2 * n + r2
    ensures q1 == q2 && r1 == r2
  {
    if q1 > q2 {
      MulLe(q2 + 1, q1, n);
    } else if q1 < q2 {
      MulLe(q1 + 1, q2, n);
    }
  }

  /**
   * Each item reads the window of its block, and its features decode back, at
   * the band's type, to the input pixels there; exactly when the day
   * difference does not wrap.
   */
  lemma ItemDecodes(ds: Dataset, idx: nat, r: nat, c: nat)
    requires ds.Valid() && idx < ds.Len() && r < BlockSize && c < BlockSize
    ensures var xy := ds.BlockIndex(idx);
      var s := ds.GetItem(idx);
      && xy.0 * BlockSize + BlockSize <= ds.width && xy.1 * BlockSize + BlockSize <= ds.height
      && var v := ds.input[xy.1 * BlockSize + r][xy.0 * BlockSize + c];
      && s.confidence[r][c] == Confidence(v)
      && ds.dtype.InRange(s.days[r][c])
      && (ds.dtype.InRange(v) ==>
            Wrap(ds.dtype, s.confidence[r][c] * DateModulus + s.days[r][c] + ds.referenceDate) == v)
      && (ds.dtype.InRange(Date(v) - ds.referenceDate) ==>
            s.confidence[r][c] * DateModulus + s.days[r][c] + ds.referenceDate == v &&
            0 <= s.days[r][c] + ds.referenceDate < DateModulus)
  {
    var xy := ds.BlockIndex(idx);
    WindowInside(xy.0, xy.1, ds.NumBlocksX(), ds.NumBlocksY(), ds.width, ds.height);
    var inBlock := ReadWindow(ds.input, ds.height, ds.width, xy.0, xy.1);
    FeaturesDecode(inBlock, ds.referenceDate, ds.dtype, r, c);
  }

  /** The label is true iff some pixel of the block's window has ground-truth loss within 180 days after its date. */
  lemma ItemLabel(ds: Dataset, idx: nat)
    requires ds.Valid() && idx < ds.Len()
    ensures var xy := ds.BlockIndex(idx);
      var r0, c0 := xy.1 * BlockSize, xy.0 * BlockSize;
      && r0 + BlockSize <= ds.height && c0 + BlockSize <= ds.width
      && (ds.GetItem(idx).future <==>
          exists r, c :: r0 <= r < r0 + BlockSize && c0 <= c < c0 + BlockSize &&
            DeforestedSoon(ds.input[r][c], ds.groundTruth[r][c]))
  {
    var xy := ds.BlockIndex(idx);
    var r0, c0 := xy.1 * BlockSize, xy.0 * BlockSize;
    WindowInside(xy.0, xy.1, ds.NumBlocksX(), ds.NumBlocksY(), ds.width, ds.height);
    var inBlock := ReadWindow(ds.input, ds.height, ds.width, xy.0, xy.1);
    var gtBlock := ReadWindow(ds.groundTruth, ds.height, ds.width, xy.0, xy.1);
    AnyInBlockIff(inBlock, gtBlock, BlockSize);
    if ds.GetItem(idx).future {
      var r, c :| 0 <= r < BlockSize && 0 <= c < BlockSize && DeforestedSoon(inBlock[r][c], gtBlock[r][c]);
      assert DeforestedSoon(ds.input[r0 + r][c0 + c], ds.groundTruth[r0 + r][c0 + c]);
    }
    if exists r, c :: r0 <= r < r0 + BlockSize && c0 <= c < c0 + BlockSize &&
        DeforestedSoon(ds.input[r][c], ds.groundTruth[r][c]) {
      var r, c :| r0 <= r < r0 + BlockSize && c0 <= c < c0 + BlockSize &&
        DeforestedSoon(ds.input[r][c], ds.groundTruth[r][c]);
      assert DeforestedSoon(inBlock[r - r0][c - c0], gtBlock[r - r0][c - c0]);
    }
  }
}
