/**
 * processing_script.py: `process_geotiff` runs the network once per whole
 * 40x40 block of the input raster and stores the results in a grid of one
 * cell per block. The network, with its float normalisation, is a parameter;
 * reading the raster and writing the output file are not part of this model.
 */
module SuperpixelProcessing {
  import opened Grids
  import opened SuperpixelTraining
  import opened Dtypes

  /** The trained network applied to the confidence and day planes of one block. */
  type Net = (Grid, Grid) -> real

  /** `process_block`: decode the block, read at type `t`, and evaluate the network on it. */
  function ProcessBlock(block: Grid, net: Net, referenceDate: int, t: IntType): real
    requires IsGrid(block, BlockSize, BlockSize)
  {
    var f := Features(block, referenceDate, t);
    net(f.0, f.1)
  }

  /** The value `process_geotiff` stores for block `(x, y)`. */
  function BlockResult(input: Grid, height: nat, width: nat, referenceDate: int, t: IntType, net: Net, x: nat, y: nat): real
    requires IsGrid(input, height, width) && x < width / BlockSize && y < height / BlockSize
  {
    WindowInside(x, y, width / BlockSize, height / BlockSize, width, height);
    ProcessBlock(ReadWindow(input, height, width, x, y), net, referenceDate, t)
  }

  /**
   * `process_geotiff`: a zero grid of `height // 40` rows and `width // 40`
   * columns, filled row by row with the result of the block at each cell.
   */
  method ProcessGeotiff(input: Grid, height: nat, width: nat, referenceDate: int, t: IntType, net: Net)
    returns (output: array2<real>)
    requires IsGrid(input, height, width)
    ensures fresh(output)
    ensures output.Length0 == height / BlockSize && output.Length1 == width / BlockSize
    ensures forall y, x :: 0 <= y < output.Length0 && 0 <= x < output.Length1 ==>
      output[y, x] == BlockResult(input, height, width, referenceDate, t, net, x, y)
  {
    var numBlocksX := width / BlockSize;
    var numBlocksY := height / BlockSize;
    output := new real[numBlocksY, numBlocksX]((_, _) => 0.0);
    for y := 0 to numBlocksY
      invariant forall yy, xx :: 0 <= yy < y && 0 <= xx < numBlocksX ==>
        output[yy, xx] == BlockResult(input, height, width, referenceDate, t, net, xx, yy)
      invariant forall yy, xx :: y <= yy < numBlocksY && 0 <= xx < numBlocksX ==> output[yy, xx] == 0.0
    {
      for x := 0 to numBlocksX
        invariant forall yy, xx :: 0 <= yy < y && 0 <= xx < numBlocksX ==>
          output[yy, xx] == BlockResult(input, height, width, referenceDate, t, net, xx, yy)
        invariant forall xx :: 0 <= xx < x ==>
          output[y, xx] == BlockResult(input, height, width, referenceDate, t, net, xx, y)
        invariant forall yy, xx :: 0 <= yy < numBlocksY && 0 <= xx < numBlocksX && (yy > y || (yy == y && xx >= x)) ==>
          output[yy, xx] == 0.0
      {
        WindowInside(x, y, numBlocksX, numBlocksY, width, height);
        var block := ReadWindow(input, height, width, x, y);
        var result := ProcessBlock(block, net, referenceDate, t);
        output[y, x] := result;
      }
    }
  }

  /** Every pixel of a block's window belongs to that block alone: the windows are disjoint. */
  lemma WindowsDisjoint(x: nat, y: nat, r: nat, c: nat)
    requires y * BlockSize <= r < y * BlockSize + BlockSize
    requires x * BlockSize <= c < x * BlockSize + BlockSize
    ensures y == r / BlockSize && x == c / BlockSize
  {
  }

  /** Every whole block lies inside the raster; the partial blocks at the right and bottom edges are skipped. */
  lemma BlocksCoverWholeBlocksOnly(height: nat, width: nat, r: nat, c: nat)
    requires r < height && c < width
    ensures (r / BlockSize < height / BlockSize && c / BlockSize < width / BlockSize) <==>
      (r < height / BlockSize * BlockSize && c < width / BlockSize * BlockSize)
  {
  }

  /**
   * On the same raster, band type and reference date, the output cell of block `(x, y)`
   * is the network applied to the features of training item `y * nbx + x`.
   */
  lemma SameDecodingAsTraining(ds: Dataset, net: Net, x: nat, y: nat)
    requires ds.Valid() && x < ds.NumBlocksX() && y < ds.NumBlocksY()
    ensures y * ds.NumBlocksX() + x < ds.Len()
    ensures BlockResult(ds.input, ds.height, ds.width, ds.referenceDate, ds.dtype, net, x, y) ==
      var s := ds.GetItem(y * ds.NumBlocksX() + x); net(s.confidence, s.days)
  {
    BlockIndexBijective(ds, x, y);
  }
}
