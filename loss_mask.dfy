/**
 * FinalForestMaskAveragepixels400m.py: the loss-year classification, the forest
 * mask with loss pixels cleared and scaled by 100 into `uint16`, the tile code
 * taken from a Hansen loss-year file name, and the selection of the first 252
 * files in sorted order.
 */
module LossMask {
  import opened Grids
  import opened Strs
  import opened Sorting

  /** Loss years 1..19 (2001..2019) count as loss. */
  const FirstLossYear := 1
  const LastLossYear := 19

  /** `np.where((loss >= 1) & (loss <= 19), 1, 0)` */
  function LossClassified(loss: Grid, h: nat, w: nat): (m: Grid)
    requires IsGrid(loss, h, w)
    ensures IsGrid(m, h, w)
  {
    seq(h, r requires 0 <= r < h => seq(w, c requires 0 <= c < w =>
      if FirstLossYear <= loss[r][c] <= LastLossYear then 1 else 0))
  }

  /** The loss mask is binary and is 1 exactly at loss years 1..19. */
  lemma LossClassifiedIff(loss: Grid, h: nat, w: nat)
    requires IsGrid(loss, h, w)
    ensures IsBinary(LossClassified(loss, h, w))
    ensures forall r, c :: 0 <= r < h && 0 <= c < w ==>
      (LossClassified(loss, h, w)[r][c] == 1 <==> 1 <= loss[r][c] <= 19)
  {
  }

  const Uint16Modulus := 0x1_0000

  /**
   * `np.where(loss_mask == 1, 0, forestmask)` followed by
   * `np.multiply(..., 100, dtype='uint16')`: the product wraps modulo 2^16.
   */
  function ModifiedForestMask(loss: Grid, forest: Grid, h: nat, w: nat): (m: Grid)
    requires IsGrid(loss, h, w) && IsGrid(forest, h, w)
    ensures IsGrid(m, h, w)
  {
    var lossMask := LossClassified(loss, h, w);
    seq(h, r requires 0 <= r < h => seq(w, c requires 0 <= c < w =>
      (if lossMask[r][c] == 1 then 0 else forest[r][c]) * 100 % Uint16Modulus))
  }

  /** Pixels lost in 2001..2019 are cleared; the rest are the forest value times 100 when that fits in 16 bits. */
  lemma ModifiedForestMaskValues(loss: Grid, forest: Grid, h: nat, w: nat, r: nat, c: nat)
    requires IsGrid(loss, h, w) && IsGrid(forest, h, w) && r < h && c < w
    ensures 1 <= loss[r][c] <= 19 ==> ModifiedForestMask(loss, forest, h, w)[r][c] == 0
    ensures !(1 <= loss[r][c] <= 19) && 0 <= forest[r][c] <= 655 ==>
      ModifiedForestMask(loss, forest, h, w)[r][c] == 100 * forest[r][c]
    ensures 0 <= ModifiedForestMask(loss, forest, h, w)[r][c] < Uint16Modulus
  {
  }

  /** A binary forest mask becomes a 0/100 percentage mask. */
  lemma BinaryForestBecomesPercent(loss: Grid, forest: Grid, h: nat, w: nat)
    requires IsGrid(loss, h, w) && IsGrid(forest, h, w) && IsBinary(forest)
    ensures forall r, c :: 0 <= r < h && 0 <= c < w ==>
      ModifiedForestMask(loss, forest, h, w)[r][c] == 0 || ModifiedForestMask(loss, forest, h, w)[r][c] == 100
    ensures forall r, c :: 0 <= r < h && 0 <= c < w ==>
      (ModifiedForestMask(loss, forest, h, w)[r][c] == 100 <==> forest[r][c] == 1 && !(1 <= loss[r][c] <= 19))
  {
  }

  /** Beyond 655 the `uint16` product wraps: a forest value of 656 (65600) is stored as 64. */
  lemma WrapExample(loss: Grid, forest: Grid, h: nat, w: nat, r: nat, c: nat)
    requires IsGrid(loss, h, w) && IsGrid(forest, h, w) && r < h && c < w
    requires loss[r][c] == 0 && forest[r][c] == 656
    ensures ModifiedForestMask(loss, forest, h, w)[r][c] == 64
  {
  }

  const LossPrefix := "Hansen_GFC-2023-v1.11_lossyear_"
  const TifSuffix := ".tif"

  /** `file_name.replace(LossPrefix, "").replace(".tif", "")` */
  function TileInfo(fileName: string): string
  {
    ReplaceAll(ReplaceAll(fileName, LossPrefix, ""), TifSuffix, "")
  }

  /** The characters of a tile code such as `10N_020E`. */
  predicate TileCodeChar(ch: char)
  {
    IsDigit(ch) || ch == 'N' || ch == 'S' || ch == 'E' || ch == 'W' || ch == '_'
  }

  predicate IsTileCode(code: string)
  {
    forall k :: 0 <= k < |code| ==> TileCodeChar(code[k])
  }

  /** Removing `.tif` from a tile code followed by `.tif` leaves the tile code. */
  lemma StripTifSuffix(code: string)
    requires IsTileCode(code)
    ensures ReplaceAll(code + TifSuffix, TifSuffix, "") == code
  {
    var s := code + TifSuffix;
    forall i: nat | i < |code| ensures !OccursAt(s, i, TifSuffix) {
      assert s[i] == code[i] && s[i] != '.';
      assert s[i..i + |TifSuffix|][0] == s[i];
    }
    ReplaceAllKeepsPrefix(code, TifSuffix, TifSuffix, "");
    ReplaceAllLeading(TifSuffix, "", "");
    assert TifSuffix + "" == TifSuffix;
  }

  /** For a Hansen loss-year name, `tile_info` is the tile code between prefix and extension. */
  lemma TileInfoOfLossFile(code: string)
    requires IsTileCode(code)
    ensures TileInfo(LossPrefix + code + TifSuffix) == code
  {
    var s := code + TifSuffix;
    assert LossPrefix + code + TifSuffix == LossPrefix + s;
    forall k | 0 <= k < |s| ensures s[k] != 'H' {
      if k < |code| {
        assert s[k] == code[k] && TileCodeChar(code[k]);
      } else {
        assert s[k] == TifSuffix[k - |code|];
      }
    }
    assert LossPrefix[0] == 'H';
    ReplaceAllStripsLeading(LossPrefix, s);
    StripTifSuffix(code);
  }

  lemma TileInfoExample()
    ensures TileInfo("Hansen_GFC-2023-v1.11_lossyear_10N_020E.tif") == "10N_020E"
  {
    assert "Hansen_GFC-2023-v1.11_lossyear_10N_020E.tif" == LossPrefix + "10N_020E" + TifSuffix;
    TileInfoOfLossFile("10N_020E");
  }

  const StartIndex := 0
  const EndIndex := 252

  /** `loss_files[start_index:end_index]` of the sorted list, with Python's slice clipping. */
  function SelectedFiles(files: seq<string>): seq<string>
  {
    var sorted := Sort(files);
    sorted[StartIndex..if |sorted| < EndIndex then |sorted| else EndIndex]
  }

  /** At most 252 files are processed, all of them from the listing, in sorted order. */
  lemma SelectionFacts(files: seq<string>)
    ensures |SelectedFiles(files)| == if |files| < 252 then |files| else 252
    ensures SortedStrings(SelectedFiles(files))
    ensures multiset(SelectedFiles(files)) <= multiset(files)
  {
    var sorted := Sort(files);
    SortIsSortedPermutation(files);
    var k := if |sorted| < EndIndex then |sorted| else EndIndex;
    assert sorted == sorted[..k] + sorted[k..];
    assert multiset(sorted) == multiset(sorted[..k]) + multiset(sorted[k..]);
  }

  /** No file left out comes before a file that is processed. */
  lemma SelectionIsSmallest(files: seq<string>, i: nat, f: string)
    requires i < |SelectedFiles(files)| && f in files && f !in SelectedFiles(files)
    ensures LexLe(SelectedFiles(files)[i], f)
  {
    var sorted := Sort(files);
    SortIsSortedPermutation(files);
    var k := if |sorted| < EndIndex then |sorted| else EndIndex;
    var sel := sorted[..k];
    assert SelectedFiles(files) == sel;
    assert f in multiset(sorted);
    var j :| 0 <= j < |sorted| && sorted[j] == f;
    assert forall m :: 0 <= m < k ==> sorted[m] == sel[m];
    assert j >= k;
  }

  /** With at most 252 files every file is processed, in sorted order. */
  lemma SmallListAllSelected(files: seq<string>)
    requires |files| <= 252
    ensures SelectedFiles(files) == Sort(files)
  {
  }
}
