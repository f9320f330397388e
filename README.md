# ForestForesight raster batch scripts, modelled in Dafny

This project models the integer and string logic of the ForestForesight
preprocessing scripts. Those scripts turn forest-cover, forest-loss, alert and
land rasters into per-tile model inputs. Rasters are rectangular sequences of
rows (`Grids.Grid`). Buffers that a script fills cell by cell are `array2`s.
Directory listings, the `os.walk` sequence, the library resampling outputs and
the trained network are parameters.

One module per script, or per pair of near-identical scripts:

- `EdgeMap` (ForestEdgeMap2.py): the 4-neighbour erosion, the potential edges, the neighbour count, the rule of at least two potential-edge neighbours, and the border clearing.
- `BorderMask` (ForestEdgeMapSetbordervaluesto0.py): the in-place write of the border.
- `ForestMasks`: the two `create_binary_forest_map` thresholds (3000 and 1), and the erosion edge predicate of `calculate_edge_density`.
- `BlockAggregation`:
  - the block sums of `sum_high_res_values` (with the trim of the last column);
  - the block counts of `count_high_res_edges` (stored as `uint32`).
- `Nodata`, `RadialSearch`, `DistanceMap` (DistanceToForestEdge2.py):
  - the nodata rewrite and the mask `data > 0`;
  - the breadth-first `radial_distance_search`, proved against a declarative definition of its result;
  - the fill of the `inf` distance map at the sampled centres.
- `Composite` (CompositeCode.py): the composite score and its six categories.
- `AlertCounts`: the per-threshold alert counts and the CSV rows.
- `LossMask` and `Sorting` (FinalForestMaskAveragepixels400m.py):
  - the loss-year classification;
  - the `uint16` forest mask;
  - `tile_info`;
  - the first 252 files in sorted order.
- `LandMultiply`, covering both MultiplywithLand scripts:
  - the tile-code regular expression;
  - the 254 land multiplier;
  - reference-file selection;
  - the output names.
- `TileDownload` (ScriptDownloadGlobalForestWatchData.py): the enumeration of every Hansen file name and URL.
- `FileChecklist` (Checklistoffiles.py): tile codes and the two set differences.
- `SuperpixelTraining` and `SuperpixelProcessing`: the 40x40 block indexing, the value decoding and the label of the superpixel scripts.
- `Dtypes`: the numpy integer types of a band and the wrap-around of a value computed at such a type.

The code is modelled as written, including its quirks.

- `radial_distance_search` seeds `visited` with `set(start_point)`. That set holds the two coordinates as integers, not the start cell. A background start cell is therefore rediscovered at level 2.
- The latitude prefix is not padded (`0N`).
- Longitude 170 is enumerated twice.
- A threshold listed twice gets two counts per alert file.
- The forest mask times 100 wraps modulo 2^16.
- The superpixel day count `date - reference_date` is computed at the band's type, so a uint16 band wraps a date before the reference date.
- In the MultiplywithLand scripts, an `inf` or NaN sample off land becomes NaN, not 0.
- In the WorksforReal script, every land reference of one sub-directory writes the same output file.

## Model

| member | source | states |
|---|---|---|
| `EdgeMap.ErodedByRing` | scripts_Stijn/Python/ForestEdgeMap2.py:13-18 | the erosion by the ring structure with outside as background; SurroundedIsNotPotential and BoundaryForestIsPotential state it |
| `EdgeMap.Potential` | scripts_Stijn/Python/ForestEdgeMap2.py:18-19 | a potential edge value is 0 or 1 |
| `EdgeMap.NeighbourCount` | scripts_Stijn/Python/ForestEdgeMap2.py:22-25 | the convolution with the ring kernel and zero padding lies in [0, 4] |
| `EdgeMap.CandidateEdges` | scripts_Stijn/Python/ForestEdgeMap2.py:28 | the edge array has the shape of the input |
| `EdgeMap.CreateEdgeMap` | scripts_Stijn/Python/ForestEdgeMap2.py:9-37 | the output is h by w; border cells are 0 and every other cell is the candidate edge there; it fails exactly when a dimension is 0 (numpy IndexError) |
| `EdgeMap.EdgesArePotentialForeground` | scripts_Stijn/Python/ForestEdgeMap2.py:18-28 | every edge is a potential edge, and every potential edge is an odd, non-zero (foreground) pixel |
| `EdgeMap.SurroundedIsNotPotential` | scripts_Stijn/Python/ForestEdgeMap2.py:13-19 | a pixel whose four in-grid neighbours are all foreground is not a potential edge |
| `EdgeMap.BoundaryForestIsPotential` | scripts_Stijn/Python/ForestEdgeMap2.py:13-19 | a forest pixel on the grid boundary is always a potential edge, because outside counts as background |
| `EdgeMap.InteriorEdgeIff` | scripts_Stijn/Python/ForestEdgeMap2.py:22-28 | an interior pixel is an edge iff it is a potential edge with at least two potential-edge neighbours; the result is 0 or 1 |
| `EdgeMap.PotentialMatchesErosionEdges` | scripts_Stijn/Python/ForestEdgeMap2.py:18-19 | on a 0/1 map the potential edges equal the erosion edges of `calculate_edge_density` |
| `EdgeMap.SquareExample` | scripts_Stijn/Python/ForestEdgeMap2.py:13-28 | on a 3x3 forest block the centre is not a potential edge, corners and side midpoints are, and corners and midpoints are candidate edges |
| `EdgeMap.SquarePotentials` | scripts_Stijn/Python/ForestEdgeMap2.py:13-19 | on the 3x3 forest square the ring pixels are potential edges, the centre and the surrounding non-forest pixels are not |
| `BorderMask.ZeroedBorder` | scripts_Stijn/Python/ForestEdgeMapSetbordervaluesto0.py:12-15 | the rewritten band keeps the shape |
| `BorderMask.ZeroBorder` | scripts_Stijn/Python/ForestEdgeMapSetbordervaluesto0.py:12-15 | in place: the array becomes the band with its border zeroed; with a 0 dimension it fails and the array is unchanged |
| `BorderMask.BorderCellsAreZero` | scripts_Stijn/Python/ForestEdgeMapSetbordervaluesto0.py:12-15 | every first/last row and column cell is 0 afterwards |
| `BorderMask.InteriorCellsKept` | scripts_Stijn/Python/ForestEdgeMapSetbordervaluesto0.py:12-15 | every interior cell keeps its value |
| `BorderMask.ZeroedBorderIdempotent` | scripts_Stijn/Python/ForestEdgeMapSetbordervaluesto0.py:12-15 | zeroing twice equals zeroing once |
| `BorderMask.ThinBandAllZero` | scripts_Stijn/Python/ForestEdgeMapSetbordervaluesto0.py:12-15 | a band of one row or one column becomes all zeros |
| `ForestMasks.BinaryForestMap` | scripts_Stijn/Python/BinaryForestNonforestmaps_above30percForestCover.py:11 | the thresholded map keeps the shape and is binary |
| `ForestMasks.ForestWhereAtThreshold` | scripts_Stijn/Python/ForestEdge_Binary_DistanceTo_Density.py:11 | a pixel is 1 iff its value is at least the threshold, and 0 iff it is below |
| `ForestMasks.RaiseThresholdShrinksForest` | scripts_Stijn/Python/BinaryForestNonforestmaps_above30percForestCover.py:11 | raising the threshold never turns a 0 pixel into 1 |
| `ForestMasks.CoverDefaultIsNonZero` | scripts_Stijn/Python/BinaryForestNonforestmaps_above30percForestCover.py:5-11 | with the default threshold 1 and non-negative input, a pixel is forest iff it is non-zero |
| `ForestMasks.ErodedByCross` | scripts_Stijn/Python/ForestEdge_Binary_DistanceTo_Density.py:37-38 | the erosion by the cross structure; BinaryEdgeIff states it |
| `ForestMasks.ErosionEdges` | scripts_Stijn/Python/ForestEdge_Binary_DistanceTo_Density.py:37-39 | the edge array has the input's shape and is binary |
| `ForestMasks.EdgesAreForeground` | scripts_Stijn/Python/ForestEdge_Binary_DistanceTo_Density.py:37-38 | an edge pixel is never background |
| `ForestMasks.BinaryEdgeIff` | scripts_Stijn/Python/ForestEdge_Binary_DistanceTo_Density.py:37-38 | on a 0/1 map a pixel is an edge iff it is forest and some 4-neighbour is background or outside the grid |
| `ForestMasks.BorderForestIsEdge` | scripts_Stijn/Python/ForestEdge_Binary_DistanceTo_Density.py:38 | every forest pixel on the raster border is an edge |
| `BlockAggregation.ToUint32` | scripts_Stijn/Python/ForestEdgeDensity4Workswithwindowspossiblyalsowithgeorefwithresultscorrect2.py:40-47 | storing a sum into the `uint32` array gives a value in [0, 2^32) that equals the sum when the sum fits |
| `BlockAggregation.ClippedCell` | scripts_Stijn/Python/Distencetoforestedgeafterresamplingaggregating.py:49-51 | the clipped block sum of one output cell; stated by ClippedIsSliceCell, FullBlockOfOnes and CellsTotal |
| `BlockAggregation.SliceCell` | scripts_Stijn/Python/ForestEdgeDensity4Workswithwindowspossiblyalsowithgeorefwithresultscorrect2.py:45-47 | the numpy-sliced block sum; stated by ClippedIsSliceCell and BlockBeyondExtent |
| `BlockAggregation.DensityCell` | scripts_Stijn/Python/ForestEdgeDensity4Workswithwindowspossiblyalsowithgeorefwithresultscorrect2.py:45-47 | the block count stored as uint32; stated by DensityCellBounds |
| `BlockAggregation.AggregateBlocks` | scripts_Stijn/Python/Distencetoforestedgeafterresamplingaggregating.py:47-51 | an fh by fw array whose cell (i, j) is the sum of the clipped block at rows i*sy.., columns j*sx.. |
| `BlockAggregation.DropLastColumn` | scripts_Stijn/Python/Distencetoforestedgeafterresamplingaggregating.py:54 | `[:, :-1]`: the same rows, one column fewer (none for an empty array), and the kept cells unchanged |
| `BlockAggregation.SumHighResValues` | scripts_Stijn/Python/Distencetoforestedgeafterresamplingaggregating.py:44-55 | the block sums with rows stepped by the second ratio and columns by the first, the last column removed, and the final width decremented |
| `BlockAggregation.CountHighResEdges` | scripts_Stijn/Python/ForestEdgeDensity4Workswithwindowspossiblyalsowithgeorefwithresultscorrect2.py:40-47 | an fh by fw array whose cell (i, j) is the `uint32` block count with rows stepped by the first ratio and columns by the second |
| `BlockAggregation.ClippedIsSliceCell` | scripts_Stijn/Python/Distencetoforestedgeafterresamplingaggregating.py:49-51 | the explicit `min(..., high_height)` clip gives the same sum as numpy's own slice clipping |
| `BlockAggregation.FullBlockOfOnes` | scripts_Stijn/Python/Distencetoforestedgeafterresamplingaggregating.py:49-51 | a whole block of ones sums to sy * sx |
| `BlockAggregation.BlockBeyondExtent` | scripts_Stijn/Python/ForestEdgeDensity4Workswithwindowspossiblyalsowithgeorefwithresultscorrect2.py:45-47 | a block starting at or beyond the raster's extent sums to 0 |
| `BlockAggregation.BlocksDisjoint` | scripts_Stijn/Python/ForestEdgeDensity4Workswithwindowspossiblyalsowithgeorefwithresultscorrect2.py:45-46 | a row (or column) lies in at most one block |
| `BlockAggregation.DensityCellBounds` | scripts_Stijn/Python/ForestEdgeDensity4Workswithwindowspossiblyalsowithgeorefwithresultscorrect2.py:40-47 | on a 0/1 map the count lies in [0, sv*sh], and equals sv*sh for a whole block of edges when sv*sh fits in 32 bits |
| `BlockAggregation.RowOfCellsTiles` | scripts_Stijn/Python/Distencetoforestedgeafterresamplingaggregating.py:48-51 | the cells of one output row add up to the sum over that row's band of the raster |
| `BlockAggregation.CellsTile` | scripts_Stijn/Python/Distencetoforestedgeafterresamplingaggregating.py:47-51 | the cells of an m by n output add up to the sum over the covered rectangle: the blocks tile it |
| `BlockAggregation.CellsTotal` | scripts_Stijn/Python/Distencetoforestedgeafterresamplingaggregating.py:47-51 | for non-negative data the cells never exceed the raster total, and equal it when the blocks cover the raster |
| `Nodata.ReplaceValue` | scripts_Stijn/Python/DistanceToForestEdge2.py:34 | the rewritten band keeps the shape |
| `Nodata.ReplaceInPlace` | scripts_Stijn/Python/DistanceToForestEdge2.py:34 | in place: the array becomes the band with every `from` sample replaced |
| `Nodata.ReplacedCells` | scripts_Stijn/Python/DistanceToForestEdge2.py:34 | a sample equal to `from` becomes `to`, and every other sample is kept |
| `Nodata.NoneLeft` | scripts_Stijn/Python/DistanceToForestEdge2.py:34 | no sample equals `from` afterwards, when `to` differs |
| `Nodata.ReplaceWithItself` | scripts_Stijn/Python/MultiplywithLand_Resample_ChangeExtend_SavePerTileWorksforReal.py:13-15 | replacing -9999 by -9999 leaves the band as it was |
| `DistanceMap.Prepared` | scripts_Stijn/Python/DistanceToForestEdge2.py:31-35 | the nodata rewrite keeps the shape |
| `DistanceMap.ForestMask` | scripts_Stijn/Python/DistanceToForestEdge2.py:38 | the mask `data > 0` has the band's shape |
| `DistanceMap.CalculateDistance` | scripts_Stijn/Python/DistanceToForestEdge2.py:26-59 | the data becomes the nodata-rewritten band; the map has its shape; it fails exactly when a centre range raises; every centre holds the search result from it and every other cell is `inf` |
| `DistanceMap.FillCentres` | scripts_Stijn/Python/DistanceToForestEdge2.py:50-59 | the `inf` map with each centre `(step/2 + i*step, ...)` set to the search result from that centre |
| `DistanceMap.StartRow` | scripts_Stijn/Python/DistanceToForestEdge2.py:55 | skipping to the first column centre `step_y // 2` leaves no centre unfilled |
| `DistanceMap.FillStep` | scripts_Stijn/Python/DistanceToForestEdge2.py:58-59 | writing the search result at one centre extends the filled region to the next centre of the row |
| `DistanceMap.AdvanceRow` | scripts_Stijn/Python/DistanceToForestEdge2.py:54-55 | a finished row of centres moves on to the next row centre |
| `DistanceMap.NextCentre` | scripts_Stijn/Python/DistanceToForestEdge2.py:54-55 | no centre lies strictly between two consecutive range values |
| `DistanceMap.IsCentre` | scripts_Stijn/Python/DistanceToForestEdge2.py:54-55 | a coordinate of the `range(step // 2, n, step)`; stated by CentresAreRegular, NextCentre and NegativeStepNoCentres |
| `DistanceMap.CentresDefined` | scripts_Stijn/Python/DistanceToForestEdge2.py:53-55 | the comprehension evaluates without ValueError; stated by ZeroStepRaises |
| `DistanceMap.CentresAreRegular` | scripts_Stijn/Python/DistanceToForestEdge2.py:54-55 | every `step // 2 + i * step` below the extent is a centre |
| `DistanceMap.NegativeStepNoCentres` | scripts_Stijn/Python/DistanceToForestEdge2.py:54-55 | a negative step gives no centres |
| `DistanceMap.NodataIsBackground` | scripts_Stijn/Python/DistanceToForestEdge2.py:33-38 | a nodata sample is background in the mask |
| `DistanceMap.OtherSamplesKeepTheirClass` | scripts_Stijn/Python/DistanceToForestEdge2.py:33-38 | any other sample is forest iff it is positive |
| `DistanceMap.ZeroStepRaises` | scripts_Stijn/Python/DistanceToForestEdge2.py:53-55 | a zero row step always raises; a zero column step raises iff some row centre exists |
| `RadialSearch.RadialDistanceSearch` | scripts_Stijn/Python/DistanceToForestEdge2.py:6-24 | the returned distance meets the declarative search result: the least Manhattan distance to a background cell other than the start, or 2 for a rediscovered background start, or `inf` |
| `RadialSearch.SearchResultUnique` | scripts_Stijn/Python/DistanceToForestEdge2.py:6-24 | at most one distance meets the search result, so the search is a function of mask and start |
| `RadialSearch.ResultAtLeastOne` | scripts_Stijn/Python/DistanceToForestEdge2.py:19-21 | a finite result is at least 1 |
| `RadialSearch.BackgroundNeighbourGivesOne` | scripts_Stijn/Python/DistanceToForestEdge2.py:11-21 | a background 4-neighbour inside the grid makes the result 1 |
| `RadialSearch.InfiniteIff` | scripts_Stijn/Python/DistanceToForestEdge2.py:13-24 | the result is `inf` iff every other cell is forest and the start is not rediscovered as background |
| `RadialSearch.BackgroundStartExample` | scripts_Stijn/Python/DistanceToForestEdge2.py:10 | on the mask `[[F, T, T]]` from (0, 0) the result is 2, because `set(start_point)` does not mark the start visited |
| `RadialSearch.SearchStart` | scripts_Stijn/Python/DistanceToForestEdge2.py:8-10 | the initial queue and `visited` meet the loop invariant |
| `RadialSearch.ExpandFound` | scripts_Stijn/Python/DistanceToForestEdge2.py:19-21 | discovering a background cell at level l + 1 returns the search result |
| `RadialSearch.ExpandEnd` | scripts_Stijn/Python/DistanceToForestEdge2.py:14-22 | after the four directions the outer invariant holds again and the unseen cells or the queue shrank |
| `RadialSearch.Exhausted` | scripts_Stijn/Python/DistanceToForestEdge2.py:23-24 | an empty queue means the result is `inf` |
| `Composite.CompositeScore` | scripts_Stijn/Python/CompositeCode.py:10-13 | the score grid has the shape of the inputs |
| `Composite.ScoreRange` | scripts_Stijn/Python/CompositeCode.py:11-12 | for scores 1..6 the composite lies in [1, 36] |
| `Composite.Category` | scripts_Stijn/Python/CompositeCode.py:15-24 | every score falls in category 0..6 |
| `Composite.CategoryMap` | scripts_Stijn/Python/CompositeCode.py:15-24 | the category grid has the score's shape |
| `Composite.Assigned` | scripts_Stijn/Python/CompositeCode.py:18-23 | one masked assignment keeps the shape |
| `Composite.AssignWhere` | scripts_Stijn/Python/CompositeCode.py:18-23 | in place: the array becomes the masked assignment of one band |
| `Composite.Categorize` | scripts_Stijn/Python/CompositeCode.py:15-24 | the zero array after the six assignments is the category map |
| `Composite.SixAssignmentsAreCategory` | scripts_Stijn/Python/CompositeCode.py:17-23 | the six assignments in source order, starting from zeros, give the category map |
| `Composite.CategoryMonotone` | scripts_Stijn/Python/CompositeCode.py:18-23 | a higher score never gets a lower category |
| `Composite.CategoryIsSixPointBands` | scripts_Stijn/Python/CompositeCode.py:19-22 | for scores 6..29 the category is `score // 6 + 1` |
| `Composite.DisjointAssignmentsCommute` | scripts_Stijn/Python/CompositeCode.py:18-23 | assignments to non-overlapping bands commute, so their order does not matter |
| `Composite.ValidInputsNeverZero` | scripts_Stijn/Python/CompositeCode.py:11-23 | inputs in 1..6 always get a category in 1..6 |
| `AlertCounts.CountTrue` | scripts_Stijn/Python/CountingPixelsIntegratedAlertsForDifferentTreecoverTresholds.py:34 | `np.sum` of a boolean mask; stated by RowTrue, CountTrueMonotone and CountBounds |
| `AlertCounts.RowTrue` | scripts_Stijn/Python/CountingPixelsIntegratedAlertsForDifferentTreecoverTresholds.py:34 | the count of one row is at most its length |
| `AlertCounts.HitMask` | scripts_Stijn/Python/CountingPixelsIntegratedAlertsForDifferentTreecoverTresholds.py:32-34 | the combined mask has the raster's shape |
| `AlertCounts.AlertMask` | scripts_Stijn/Python/CountingPixelsIntegratedAlertsForDifferentTreecoverTresholds.py:33 | the alert mask has the raster's shape |
| `AlertCounts.CoverMask` | scripts_Stijn/Python/CountingPixelsIntegratedAlertsForDifferentTreecoverTresholds.py:32 | the tree-cover mask has the raster's shape |
| `AlertCounts.RowTrueMonotone` | scripts_Stijn/Python/CountingPixelsIntegratedAlertsForDifferentTreecoverTresholds.py:34 | a row whose true cells are true in another counts no more |
| `AlertCounts.CountTrueMonotone` | scripts_Stijn/Python/CountingPixelsIntegratedAlertsForDifferentTreecoverTresholds.py:34 | a mask implied cell by cell by another counts no more |
| `AlertCounts.AlertCount` | scripts_Stijn/Python/CountingPixelsIntegratedAlertsForDifferentTreecoverTresholds.py:32-34 | the count for one threshold; stated by CountBounds, CountNonIncreasing and ZeroThresholdCountsAllAlerts |
| `AlertCounts.CountBounds` | scripts_Stijn/Python/CountingPixelsIntegratedAlertsForDifferentTreecoverTresholds.py:32-34 | a count is at most the number of alerts and at most the number of covered pixels |
| `AlertCounts.CountNonIncreasing` | scripts_Stijn/Python/CountingPixelsIntegratedAlertsForDifferentTreecoverTresholds.py:32-34 | a higher threshold never gives a higher count |
| `AlertCounts.ZeroThresholdCountsAllAlerts` | scripts_Stijn/Python/CountingPixelsIntegratedAlertsForDifferentTreecoverTresholds.py:32-34 | with non-negative tree cover, threshold 0 counts every alert |
| `AlertCounts.Occurrences` | scripts_Stijn/Python/CountingPixelsIntegratedAlertsForDifferentTreecoverTresholds.py:31 | a threshold is listed at most length-many times, and an absent one 0 times |
| `AlertCounts.GetMonthlyAlertCounts` | scripts_Stijn/Python/CountingPixelsIntegratedAlertsForDifferentTreecoverTresholds.py:7-36 | the keys are exactly the thresholds, and each entry is the counts of every file in order, each repeated as often as the threshold is listed |
| `AlertCounts.AppendFileCounts` | scripts_Stijn/Python/CountingPixelsIntegratedAlertsForDifferentTreecoverTresholds.py:31-34 | the inner loop appends, for each listed threshold, one count of the file to that threshold's entry |
| `AlertCounts.AppendStep` | scripts_Stijn/Python/CountingPixelsIntegratedAlertsForDifferentTreecoverTresholds.py:34 | one append keeps the inner-loop invariant for every key |
| `AlertCounts.FileStep` | scripts_Stijn/Python/CountingPixelsIntegratedAlertsForDifferentTreecoverTresholds.py:14-34 | after a file every entry is the expected counts of the files so far |
| `AlertCounts.OccursOnce` | scripts_Stijn/Python/CountingPixelsIntegratedAlertsForDifferentTreecoverTresholds.py:31-34 | a listed threshold of a duplicate-free list occurs once |
| `AlertCounts.OneCountPerFile` | scripts_Stijn/Python/CountingPixelsIntegratedAlertsForDifferentTreecoverTresholds.py:13-34 | with distinct thresholds each entry has one count per file, and count i is file i's count |
| `AlertCounts.DuplicateThresholdExample` | scripts_Stijn/Python/CountingPixelsIntegratedAlertsForDifferentTreecoverTresholds.py:13-34 | listing 10 twice gives two counts for one file |
| `AlertCounts.CsvRow` | scripts_Stijn/Python/CountingPixelsIntegratedAlertsForDifferentTreecoverTresholds.py:43 | a row is the tile, the threshold, then every count in order |
| `AlertCounts.FirstOccurrences` | scripts_Stijn/Python/CountingPixelsIntegratedAlertsForDifferentTreecoverTresholds.py:13 | the dictionary's key order holds every threshold once |
| `AlertCounts.CsvRows` | scripts_Stijn/Python/CountingPixelsIntegratedAlertsForDifferentTreecoverTresholds.py:42-43 | one row per key, in key order, each the row of that key |
| `AlertCounts.RowLength` | scripts_Stijn/Python/CountingPixelsIntegratedAlertsForDifferentTreecoverTresholds.py:38-43 | with distinct thresholds every written row has 2 + number-of-files cells |
| `LossMask.LossClassified` | scripts_Stijn/Python/FinalForestMaskAveragepixels400m.py:16 | the loss mask keeps the shape |
| `LossMask.LossClassifiedIff` | scripts_Stijn/Python/FinalForestMaskAveragepixels400m.py:16 | the loss mask is binary and 1 exactly for loss years 1..19 |
| `LossMask.ModifiedForestMask` | scripts_Stijn/Python/FinalForestMaskAveragepixels400m.py:31-33 | the updated mask keeps the shape |
| `LossMask.ModifiedForestMaskValues` | scripts_Stijn/Python/FinalForestMaskAveragepixels400m.py:31-33 | loss pixels become 0; others become 100 times the forest value when that is 0..655; every value is in [0, 65536) |
| `LossMask.BinaryForestBecomesPercent` | scripts_Stijn/Python/FinalForestMaskAveragepixels400m.py:31-33 | a 0/1 forest mask becomes 0/100, and 100 exactly where there is forest and no loss |
| `LossMask.WrapExample` | scripts_Stijn/Python/FinalForestMaskAveragepixels400m.py:33 | a forest value of 656 is stored as 64 (65600 mod 65536) |
| `LossMask.TileInfo` | scripts_Stijn/Python/FinalForestMaskAveragepixels400m.py:82 | the two `replace` calls on the file name; stated by TileInfoOfLossFile |
| `LossMask.TileInfoOfLossFile` | scripts_Stijn/Python/FinalForestMaskAveragepixels400m.py:82 | for a loss-year file name, `tile_info` is exactly the tile code between prefix and extension |
| `LossMask.StripTifSuffix` | scripts_Stijn/Python/FinalForestMaskAveragepixels400m.py:82 | removing `.tif` from a tile code followed by `.tif` gives the tile code |
| `LossMask.TileInfoExample` | scripts_Stijn/Python/FinalForestMaskAveragepixels400m.py:82 | `..._lossyear_10N_020E.tif` gives `10N_020E` |
| `LossMask.SelectedFiles` | scripts_Stijn/Python/FinalForestMaskAveragepixels400m.py:76-80 | `sorted(files)[0:252]`; stated by SelectionFacts and SelectionIsSmallest |
| `LossMask.SelectionFacts` | scripts_Stijn/Python/FinalForestMaskAveragepixels400m.py:76-80 | min(n, 252) files are processed, in sorted order, all taken from the listing |
| `LossMask.SelectionIsSmallest` | scripts_Stijn/Python/FinalForestMaskAveragepixels400m.py:76-80 | every file left out is not below any processed file |
| `LossMask.SmallListAllSelected` | scripts_Stijn/Python/FinalForestMaskAveragepixels400m.py:76-80 | with at most 252 files the whole sorted list is processed |
| `Sorting.LexReflexive` | scripts_Stijn/Python/FinalForestMaskAveragepixels400m.py:76 | string order is reflexive |
| `Sorting.LexTotal` | scripts_Stijn/Python/FinalForestMaskAveragepixels400m.py:76 | string order is total |
| `Sorting.LexTransitive` | scripts_Stijn/Python/FinalForestMaskAveragepixels400m.py:76 | string order is transitive |
| `Sorting.LexAntisymmetric` | scripts_Stijn/Python/FinalForestMaskAveragepixels400m.py:76 | string order is antisymmetric |
| `Sorting.Insert` | scripts_Stijn/Python/FinalForestMaskAveragepixels400m.py:76 | insertion adds one element and keeps the multiset plus that element |
| `Sorting.InsertSorted` | scripts_Stijn/Python/FinalForestMaskAveragepixels400m.py:76 | inserting into a sorted list keeps it sorted |
| `Sorting.Sort` | scripts_Stijn/Python/FinalForestMaskAveragepixels400m.py:76 | `sorted` keeps the length |
| `Sorting.SortIsSortedPermutation` | scripts_Stijn/Python/FinalForestMaskAveragepixels400m.py:76 | `sorted` returns an ordered permutation of its input |
| `Sorting.SortIsSorted` | scripts_Stijn/Python/FinalForestMaskAveragepixels400m.py:76 | `sorted` returns an ordered list |
| `Sorting.SortIsPermutation` | scripts_Stijn/Python/FinalForestMaskAveragepixels400m.py:76 | `sorted` returns a permutation of its input |
| `Strs.ReplaceAll` | scripts_Stijn/Python/FinalForestMaskAveragepixels400m.py:82 | Python `str.replace`, scanning left to right; stated by ReplaceAllAbsent, ReplaceAllKeepsPrefix and ReplaceAllLeading |
| `Strs.ReplaceAllAbsent` | scripts_Stijn/Python/FinalForestMaskAveragepixels400m.py:82 | `replace` leaves a text with no occurrence unchanged |
| `Strs.ReplaceAllKeepsPrefix` | scripts_Stijn/Python/FinalForestMaskAveragepixels400m.py:82 | `replace` keeps a prefix in which no occurrence starts |
| `Strs.ReplaceAllLeading` | scripts_Stijn/Python/FinalForestMaskAveragepixels400m.py:82 | `replace` of a leading occurrence puts the replacement in front |
| `Strs.ReplaceAllStripsLeading` | scripts_Stijn/Python/FinalForestMaskAveragepixels400m.py:82 | replacing a leading pattern by nothing, in a text that never holds the pattern's first character, gives that text |
| `Strs.Split` | scripts_Stijn/Python/Checklistoffiles.py:5 | `split` gives at least one piece |
| `Strs.SplitJoin` | scripts_Stijn/Python/Checklistoffiles.py:5 | splitting then joining with the separator gives the text back, and no piece holds the separator |
| `Strs.SplitHasTwoParts` | scripts_Stijn/Python/Checklistoffiles.py:5 | a text holding the separator splits into at least two pieces |
| `Strs.NatToString` | scripts_Stijn/Python/ScriptDownloadGlobalForestWatchData.py:21 | `str(n)`; stated by NatToStringDecimal and NatToStringLength |
| `Strs.NatToStringDecimal` | scripts_Stijn/Python/ScriptDownloadGlobalForestWatchData.py:21 | `str(n)` is at least one decimal digit, with value n, and starts with 0 only for 0 |
| `Strs.NatToStringLength` | scripts_Stijn/Python/ScriptDownloadGlobalForestWatchData.py:21 | `str(n)` has one digit for n < 10, two for n < 100 and three for n < 1000 |
| `Strs.ZeroPad3` | scripts_Stijn/Python/ScriptDownloadGlobalForestWatchData.py:23 | `f"{n:03}"`; stated by ZeroPad3Decimal |
| `Strs.ZeroPad3Decimal` | scripts_Stijn/Python/ScriptDownloadGlobalForestWatchData.py:23 | `f"{n:03}"` for n < 1000 is three digits with value n |
| `Strs.Basename` | scripts_Stijn/Python/MultiplywithLand_Resample_ChangeExtend_SavePerTileForForestEdge.py:24 | the base name holds no `/` or `\` |
| `Strs.BasenameSuffix` | scripts_Stijn/Python/MultiplywithLand_Resample_ChangeExtend_SavePerTileForForestEdge.py:24 | the base name is a suffix of the path, preceded by a separator when it is shorter than the path |
| `Strs.BasenameOfPlainName` | scripts_Stijn/Python/MultiplywithLand_Resample_ChangeExtend_SavePerTileForForestEdge.py:24 | a name without separators is its own base name |
| `Strs.BasenameOfJoin` | scripts_Stijn/Python/MultiplywithLand_Resample_ChangeExtend_SavePerTileForForestEdge.py:70 | the base name of a directory joined with a plain name is that name |
| `LandMultiply.MatchAt` | scripts_Stijn/Python/MultiplywithLand_Resample_ChangeExtend_SavePerTileForForestEdge.py:9 | a match starting at a position ends inside the text |
| `LandMultiply.SearchFromNone` | scripts_Stijn/Python/MultiplywithLand_Resample_ChangeExtend_SavePerTileForForestEdge.py:9 | the search fails iff no position from the start matches |
| `LandMultiply.LonLatCode` | scripts_Stijn/Python/MultiplywithLand_Resample_ChangeExtend_SavePerTileForForestEdge.py:8-12 | the first match of the tile-code pattern, or None; its meaning is stated by LonLatCodeNoneIff and LonLatCodeIsLeftmost |
| `LandMultiply.LonLatCodeNoneIff` | scripts_Stijn/Python/MultiplywithLand_Resample_ChangeExtend_SavePerTileForForestEdge.py:8-12 | `get_lon_lat_code` is `None` iff the name holds no match |
| `LandMultiply.SearchFromSome` | scripts_Stijn/Python/MultiplywithLand_Resample_ChangeExtend_SavePerTileForForestEdge.py:9 | a found code is the text of the match at the first matching position |
| `LandMultiply.LonLatCodeIsLeftmost` | scripts_Stijn/Python/MultiplywithLand_Resample_ChangeExtend_SavePerTileForForestEdge.py:8-12 | the code has 8 or 9 characters with `_` before the last 4; it is the substring at the leftmost match, preferring three latitude digits |
| `LandMultiply.LonLatCodeExample` | scripts_Stijn/Python/MultiplywithLand_Resample_ChangeExtend_SavePerTileForForestEdge.py:8-12 | `10N_020E.tif` gives `10N_020E` |
| `LandMultiply.NodataFallback` | scripts_Stijn/Python/MultiplywithLand_Resample_ChangeExtend_SavePerTileForForestEdge.py:19-22 | the nodata is -9999 when unset and the given value otherwise; the data is unchanged |
| `LandMultiply.Multiplier` | scripts_Stijn/Python/MultiplywithLand_Resample_ChangeExtend_SavePerTileWorksforReal.py:27 | the multiplier keeps the reference's shape |
| `LandMultiply.Times` | scripts_Stijn/Python/MultiplywithLand_Resample_ChangeExtend_SavePerTileWorksforReal.py:44 | the IEEE product of a float32 sample and an integer: an infinity times 0 is NaN, NaN stays NaN, a finite value is scaled |
| `LandMultiply.Multiplied` | scripts_Stijn/Python/MultiplywithLand_Resample_ChangeExtend_SavePerTileWorksforReal.py:44 | the product keeps the shape; its cells are the IEEE products stated by MultipliedKeepsLand |
| `LandMultiply.MultipliedKeepsLand` | scripts_Stijn/Python/MultiplywithLand_Resample_ChangeExtend_SavePerTileWorksforReal.py:27-44 | the multiplier is binary and 1 exactly at class 254; the product keeps the resampled sample there; elsewhere a finite sample becomes 0 and an infinity or NaN becomes NaN |
| `LandMultiply.InfinityOffLandIsNaN` | scripts_Stijn/Python/MultiplywithLand_Resample_ChangeExtend_SavePerTileWorksforReal.py:44 | an `inf` sample of a distance map on land stays `inf`; off land it becomes NaN, not 0 |
| `LandMultiply.FirstEdgeReference` | scripts_Stijn/Python/MultiplywithLand_Resample_ChangeExtend_SavePerTileForForestEdge.py:28-75 | a found reference is an index into the listing |
| `LandMultiply.FirstEdgeReferenceSpec` | scripts_Stijn/Python/MultiplywithLand_Resample_ChangeExtend_SavePerTileForForestEdge.py:28-75 | none is found iff no file matches; otherwise the index is the first matching file |
| `LandMultiply.EdgeJobs` | scripts_Stijn/Python/MultiplywithLand_Resample_ChangeExtend_SavePerTileForForestEdge.py:26-75 | the writes of the forest-edge run, at most one per walked directory; stated by EdgeJobsFacts and EdgeJobsOfOneDirectory |
| `LandMultiply.ForestEdgeJobs` | scripts_Stijn/Python/MultiplywithLand_Resample_ChangeExtend_SavePerTileForForestEdge.py:24-75 | no writes without a code; otherwise the first matching reference of each directory, written to the `_processed` name |
| `LandMultiply.FirstEdgeFound` | scripts_Stijn/Python/MultiplywithLand_Resample_ChangeExtend_SavePerTileForForestEdge.py:28-75 | a matching file with no match before it is the one found |
| `LandMultiply.EdgeJobsFacts` | scripts_Stijn/Python/MultiplywithLand_Resample_ChangeExtend_SavePerTileForForestEdge.py:26-75 | no more writes than walked directories, each of a matching reference and to the one output name |
| `LandMultiply.EdgeJobsOfOneDirectory` | scripts_Stijn/Python/MultiplywithLand_Resample_ChangeExtend_SavePerTileForForestEdge.py:27-75 | a single directory gives no write or exactly the write of its first matching file |
| `LandMultiply.EdgeOutputName` | scripts_Stijn/Python/MultiplywithLand_Resample_ChangeExtend_SavePerTileForForestEdge.py:70 | the base name with `.tif` replaced by `_processed.tif`; stated by EdgeOutputNameOfTif |
| `LandMultiply.EdgeOutputNameOfTif` | scripts_Stijn/Python/MultiplywithLand_Resample_ChangeExtend_SavePerTileForForestEdge.py:70 | `dir/stem.tif` is written as `stem_processed.tif` |
| `LandMultiply.RealOutputName` | scripts_Stijn/Python/MultiplywithLand_Resample_ChangeExtend_SavePerTileWorksforReal.py:59 | the base name of the directory, `_`, and the base name of the input; its collision is stated by RealOutputCollision |
| `LandMultiply.DirectoryJobs` | scripts_Stijn/Python/MultiplywithLand_Resample_ChangeExtend_SavePerTileWorksforReal.py:18-20 | the writes for one directory; stated by DirectoryJobsIff |
| `LandMultiply.RealJobs` | scripts_Stijn/Python/MultiplywithLand_Resample_ChangeExtend_SavePerTileWorksforReal.py:17-63 | the writes of the WorksforReal run; stated by RealJobsFacts |
| `LandMultiply.WorksForRealJobs` | scripts_Stijn/Python/MultiplywithLand_Resample_ChangeExtend_SavePerTileWorksforReal.py:17-63 | the writes are every directory's land references, directory by directory |
| `LandMultiply.ScanDirectory` | scripts_Stijn/Python/MultiplywithLand_Resample_ChangeExtend_SavePerTileWorksforReal.py:18-20 | the writes of one directory are its land references in listing order |
| `LandMultiply.DirectoryJobsIff` | scripts_Stijn/Python/MultiplywithLand_Resample_ChangeExtend_SavePerTileWorksforReal.py:18-59 | a write belongs to a directory iff it names that directory, one of its land references and the directory's output name |
| `LandMultiply.RealJobsFacts` | scripts_Stijn/Python/MultiplywithLand_Resample_ChangeExtend_SavePerTileWorksforReal.py:17-59 | every write is of a land reference to its directory's name, and every land reference of every directory is written |
| `LandMultiply.RealOutputCollision` | scripts_Stijn/Python/MultiplywithLand_Resample_ChangeExtend_SavePerTileWorksforReal.py:59-62 | two different land references of one directory give two writes to the same output name |
| `TileDownload.PyRange` | scripts_Stijn/Python/ScriptDownloadGlobalForestWatchData.py:14-15 | entry i is start + i*step, and every entry lies before the stop |
| `TileDownload.PyRangeLength` | scripts_Stijn/Python/ScriptDownloadGlobalForestWatchData.py:14-15 | the range has n entries when the stop falls after entry n - 1 and at or before entry n |
| `TileDownload.Enumeration` | scripts_Stijn/Python/ScriptDownloadGlobalForestWatchData.py:14-15 | seven latitudes 30, 20, .., -30; 37 longitudes -180, .., 170, then 170 again |
| `TileDownload.Latitudes` | scripts_Stijn/Python/ScriptDownloadGlobalForestWatchData.py:14 | `range(30, -31, -10)`; its values are stated by Enumeration |
| `TileDownload.Longitudes` | scripts_Stijn/Python/ScriptDownloadGlobalForestWatchData.py:15 | `range(-180, 180, 10)` followed by 170; its values are stated by Enumeration |
| `TileDownload.LatPrefix` | scripts_Stijn/Python/ScriptDownloadGlobalForestWatchData.py:21 | the latitude prefix; stated by LatPrefixShape |
| `TileDownload.LonPrefix` | scripts_Stijn/Python/ScriptDownloadGlobalForestWatchData.py:23 | the longitude prefix; stated by LonPrefixShape |
| `TileDownload.LatPrefixShape` | scripts_Stijn/Python/ScriptDownloadGlobalForestWatchData.py:21 | the latitude prefix is the unpadded decimal of abs(lat) and `N` for lat >= 0 or `S` below |
| `TileDownload.LonPrefixShape` | scripts_Stijn/Python/ScriptDownloadGlobalForestWatchData.py:23 | the longitude prefix is three digits of abs(lon) and `W` for lon < 0 or `E` otherwise |
| `TileDownload.PrefixExamples` | scripts_Stijn/Python/ScriptDownloadGlobalForestWatchData.py:21-23 | `0N`, `30S`, `180W`, `000E`, `010E` |
| `TileDownload.AppendRow` | scripts_Stijn/Python/ScriptDownloadGlobalForestWatchData.py:20-26 | appending the row of the next latitude extends the latitude-major enumeration |
| `TileDownload.GenerateFilenamesAndUrls` | scripts_Stijn/Python/ScriptDownloadGlobalForestWatchData.py:13-26 | attempt number i*37 + j is the URL and file name of latitude i and longitude j, latitude-major |
| `TileDownload.LatitudeAttempts` | scripts_Stijn/Python/ScriptDownloadGlobalForestWatchData.py:22-26 | the inner loop gives one attempt per longitude, in order |
| `TileDownload.AttemptCount` | scripts_Stijn/Python/ScriptDownloadGlobalForestWatchData.py:14-26 | 259 attempts, and the 170E tile of each latitude is attempted twice in a row |
| `TileDownload.SharedSuffix` | scripts_Stijn/Python/ScriptDownloadGlobalForestWatchData.py:24-25 | the URL ends in the tile code and `.tif`, and the file name in the loss-year prefix, the code and `.tif` |
| `TileDownload.TileCode` | scripts_Stijn/Python/ScriptDownloadGlobalForestWatchData.py:21-25 | the latitude prefix, `_`, and the longitude prefix; stated by TileCodeChars |
| `TileDownload.MakeAttempt` | scripts_Stijn/Python/ScriptDownloadGlobalForestWatchData.py:24-25 | the URL and file name of one tile; stated by AttemptParts and SharedSuffix |
| `TileDownload.AttemptParts` | scripts_Stijn/Python/ScriptDownloadGlobalForestWatchData.py:24-25 | the URL is the base URL followed by the tile code and `.tif`; the file name is the directory followed by the loss-year name |
| `TileDownload.TileCodeChars` | scripts_Stijn/Python/ScriptDownloadGlobalForestWatchData.py:21-23 | every tile code the script builds is made of digits, `N`/`S`/`E`/`W` and `_` |
| `TileDownload.SavedNamePlain` | scripts_Stijn/Python/ScriptDownloadGlobalForestWatchData.py:24 | the saved loss-year name holds no path separator |
| `TileDownload.DownloadedNamesGiveTileInfo` | scripts_Stijn/Python/ScriptDownloadGlobalForestWatchData.py:24 | the forest-mask script's `tile_info` of a downloaded file's base name is its tile code |
| `FileChecklist.ExtractCode` | scripts_Stijn/Python/Checklistoffiles.py:3-5 | a code exists iff the name holds `_` (otherwise IndexError) |
| `FileChecklist.ExtractCodeShape` | scripts_Stijn/Python/Checklistoffiles.py:3-5 | the code is a prefix of the name with exactly one `_`, and is the whole name or is followed by `_` |
| `FileChecklist.ExtractCodeOfTileName` | scripts_Stijn/Python/Checklistoffiles.py:4-5 | `lat_lon` or `lat_lon_rest` without further `_` in lat and lon gives `lat_lon` |
| `FileChecklist.Codes` | scripts_Stijn/Python/Checklistoffiles.py:16-17 | a code is in the set iff some listed file with `_` has it |
| `FileChecklist.Unique` | scripts_Stijn/Python/Checklistoffiles.py:20-21 | the two set differences; stated by UniqueMembership, UniqueDisjointAndSymmetric and NothingUniqueIff |
| `FileChecklist.UniqueMembership` | scripts_Stijn/Python/Checklistoffiles.py:20-21 | a code is reported for one directory iff some file there has it and none in the other does |
| `FileChecklist.UniqueDisjointAndSymmetric` | scripts_Stijn/Python/Checklistoffiles.py:20-21 | no code is reported for both, and swapping the directories swaps the reports |
| `FileChecklist.NothingUniqueIff` | scripts_Stijn/Python/Checklistoffiles.py:20-21 | both reports are empty iff the two directories hold the same codes |
| `FileChecklist.NamesWithoutUnderscoreIgnored` | scripts_Stijn/Python/Checklistoffiles.py:16-17 | a file without `_` adds no code |
| `SuperpixelTraining.Confidence` | scripts_jonas/superpixel/training_script.py:63 | `value // 10000`; stated by DecodeIdentity and DecodeUnique |
| `SuperpixelTraining.Date` | scripts_jonas/superpixel/training_script.py:64 | `value % 10000`; stated by DecodeIdentity and DecodeUnique |
| `SuperpixelTraining.DecodeIdentity` | scripts_jonas/superpixel/training_script.py:63-64 | value == confidence * 10000 + date with 0 <= date < 10000 |
| `SuperpixelTraining.DecodeUnique` | scripts_jonas/superpixel/training_script.py:63-64 | that split is the only one with a date in [0, 10000) |
| `SuperpixelTraining.DecodeStaysInType` | scripts_jonas/superpixel/training_script.py:63-64 | a pixel of the band type decodes into a confidence and a date of that type, so only the subtraction can wrap |
| `SuperpixelTraining.ReadWindow` | scripts_jonas/superpixel/training_script.py:58-59 | a window read is 40 by 40 |
| `SuperpixelTraining.Features` | scripts_jonas/superpixel/training_script.py:63-66 | both feature planes are 40 by 40; the day plane is computed at the band type, and FeaturesDecode states its values |
| `SuperpixelTraining.FeaturesDecode` | scripts_jonas/superpixel/training_script.py:63-66 | the day count is a value of the band type; confidence * 10000 + days + reference date, computed at that type, is the pixel; when the day difference does not wrap it is the pixel exactly and days + reference date is in [0, 10000) |
| `SuperpixelTraining.UnsignedWrapExample` | scripts_jonas/superpixel/training_script.py:66 | on a uint16 band a pixel 0 with reference date 2000 gives the day count 63536 |
| `SuperpixelTraining.DeforestedSoon` | scripts_jonas/superpixel/training_script.py:78 | the per-pixel test of the label; AnyInBlockIff and ItemLabel state the label through it |
| `SuperpixelTraining.AnyInBlock` | scripts_jonas/superpixel/training_script.py:78 | `np.any` over a block; stated by AnyInBlockIff |
| `SuperpixelTraining.AnyInRowIff` | scripts_jonas/superpixel/training_script.py:78 | `np.any` over a row is true iff some pixel has its ground-truth date within 180 days after its date |
| `SuperpixelTraining.AnyInBlockIff` | scripts_jonas/superpixel/training_script.py:78 | `np.any` over a block is true iff some pixel of the block has that property |
| `SuperpixelTraining.Dataset.NumBlocksX` | scripts_jonas/superpixel/training_script.py:45 | `width // 40`; BlockIndexBijective states the block numbering through it |
| `SuperpixelTraining.Dataset.NumBlocksY` | scripts_jonas/superpixel/training_script.py:46 | `height // 40`; BlockIndexBijective states the block numbering through it |
| `SuperpixelTraining.Dataset.Len` | scripts_jonas/superpixel/training_script.py:48-50 | the number of whole blocks; stated by BlockIndexBijective and SmallRasterIsEmpty |
| `SuperpixelTraining.Dataset.BlockIndex` | scripts_jonas/superpixel/training_script.py:52-55 | for idx < len, x < nbx, y < nby and idx == y * nbx + x |
| `SuperpixelTraining.Dataset.GetItem` | scripts_jonas/superpixel/training_script.py:52-81 | an item's feature planes are 40 by 40 |
| `SuperpixelTraining.WindowInside` | scripts_jonas/superpixel/training_script.py:45-58 | every block of the block grid lies inside the raster |
| `SuperpixelTraining.SmallRasterIsEmpty` | scripts_jonas/superpixel/training_script.py:45-50 | a raster narrower or lower than 40 gives length 0 |
| `SuperpixelTraining.BlockIndexBijective` | scripts_jonas/superpixel/training_script.py:52-55 | block (x, y) is the item of index y * nbx + x, which is below len, and of no other index |
| `SuperpixelTraining.ItemDecodes` | scripts_jonas/superpixel/training_script.py:52-66 | an item's window lies inside the raster; its confidence is the pixel's; its features, computed at the band type, give the input pixel back, exactly so when the day difference does not wrap |
| `SuperpixelTraining.ItemLabel` | scripts_jonas/superpixel/training_script.py:76-78 | an item's label is true iff some pixel of its window has ground-truth loss within 180 days after its date |
| `SuperpixelProcessing.ProcessBlock` | scripts_jonas/superpixel/processing_script.py:28-47 | the network on the decoded block; SameDecodingAsTraining states it equals the network on a training item |
| `SuperpixelProcessing.BlockResult` | scripts_jonas/superpixel/processing_script.py:70-74 | the value stored for block (x, y); stated by ProcessGeotiff and SameDecodingAsTraining |
| `SuperpixelProcessing.ProcessGeotiff` | scripts_jonas/superpixel/processing_script.py:49-78 | the output is height // 40 by width // 40, and cell (y, x) is the network's value, with days computed at the band type, on the block at rows y*40.., columns x*40.. |
| `SuperpixelProcessing.WindowsDisjoint` | scripts_jonas/superpixel/processing_script.py:68-72 | a pixel lies in the window of exactly one block |
| `SuperpixelProcessing.BlocksCoverWholeBlocksOnly` | scripts_jonas/superpixel/processing_script.py:61-62 | a pixel is read iff it lies in the whole-block part of the raster |
| `SuperpixelProcessing.SameDecodingAsTraining` | scripts_jonas/superpixel/processing_script.py:28-34 | on the same raster, band type and reference date, output cell (y, x) is the network on the features of training item y * nbx + x |
| `Dtypes.Wrap` | scripts_jonas/superpixel/training_script.py:66 | the value computed at a numpy integer type is a value of that type with the same bits |
| `Dtypes.WrapInRange` | scripts_jonas/superpixel/training_script.py:66 | a value of the type is kept |
| `Dtypes.WrapUnique` | scripts_jonas/superpixel/training_script.py:66 | the wrapped value is the only value of the type with the same bits |
| `Dtypes.SameBitsSymmetric` | scripts_jonas/superpixel/training_script.py:66 | having the same bits is symmetric |
| `Dtypes.UInt16Example` | scripts_jonas/superpixel/training_script.py:66 | at uint16, -2000 is 63536 |

## Left out

- Raster reading and writing, metadata and profiles, compression, and `print` are not modelled. Every raster is a parameter.
- Reprojection and resampling are left out: `reproject`, `calculate_default_transform`, average resampling and `read(out_shape=...)`. Their outputs and the block steps `int(final_res / high_res)` and `int(400 / res)` are parameters.
- Floating point is left out:
  - `float32` sums in `sum_high_res_values` are modelled as exact integer sums;
  - distances are naturals or `inf`;
  - a finite `LandMultiply.Float` is an exact real, with no float32 rounding and no negative zero; the float64 type of the product is not modelled;
  - the confidence and day normalisation `/100.0` and `/365.0` of the superpixel scripts is part of the network parameter.
- NaN handling (`np.isnan`) of the integer rasters is left out, because they hold no NaN. The float32 arrays that `reproject` fills in the MultiplywithLand scripts do hold `inf` and NaN, and are modelled as `LandMultiply.Float`. Masked-array reads (`masked=True`) are left out because their masks are not modelled.
- The neural network, its training loop, the optimiser, the data loader's shuffling and batching, and `torch.load` are not modelled. The network is a function parameter.
- The Euclidean distance transform and the edge-density resampling of ForestEdge_Binary_DistanceTo_Density.py are left out (scipy and rasterio float code).
- The HTTP download (`requests.get` and its status check) is not modelled. TileDownload returns the attempts in call order.
- `os.listdir`, `os.walk`, `glob` and `os.path.exists` are left out because their order and results come from the file system. They are parameters.
- The CSV header of `analyze_coverage` is left out, because it counts the files of the first `os.walk` entry (file system).
- The dates of the superpixel `__main__` block are not modelled. The reference date is the day count since 2015-01-01, computed with `datetime`; it is a parameter.
- `LandMultiply.LonLatCode`: `\d` is modelled as ASCII digits only, whereas Python's `re` also matches other Unicode decimal digits.
- `Strs.Basename` treats `/` and `\` as separators (Windows `ntpath`). Drive letters are not modelled.
- `Composite.CompositeScore`: the raster dtype is not known, so the score is an unbounded integer with no wrap-around.
- `SuperpixelTraining.Features` wraps a reference date outside the band type's range like any other. There NumPy 2 raises OverflowError and NumPy 1 promotes to a wider type. Bands of 8 bits are not modelled, because they cannot hold 10000.
- `SuperpixelTraining.Dataset.GetItem` requires the ground-truth raster to have the input's shape. With a different shape, numpy broadcasting fails or reads a clipped window.
- `BlockAggregation.SumHighResValues` does not model `final_bounds`, which is float metadata.
- The `break` of the ForestEdge script is modelled as leaving the file loop of the current `os.walk` directory, where its indentation places it. The walk itself goes on.

## Notes

- Python's `//` and `%` by a positive constant agree with Dafny's Euclidean `/` and `%`. This holds for the block indices (`idx % nbx`, `idx // nbx`), for the decoding (`v // 10000`, `v % 10000`) and for the centre ranges.
- `radial_distance_search` returns `dist + 1` at the first discovery of a background cell. `RadialSearch.SearchResult` characterises that value without the queue.
