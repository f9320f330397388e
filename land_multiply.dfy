/**
 * MultiplywithLand_Resample_ChangeExtend_SavePerTileForForestEdge.py and
 * MultiplywithLand_Resample_ChangeExtend_SavePerTileWorksforReal.py: masking a
 * resampled raster with the land class 254 of a reference raster, the tile code
 * search on file names, the choice of reference files in a walked directory
 * tree, and the output file names.
 */
module LandMultiply {
  import opened Grids
  import opened Strs
  import opened Wrappers
  import Nodata

  // ---------------------------------------------------------------------------
  // `re.search(r'(\d{2,3}[NS])_(\d{3}[EW])', filename)`

  predicate IsLatHemisphere(ch: char)
  {
    ch == 'N' || ch == 'S'
  }

  predicate IsLonHemisphere(ch: char)
  {
    ch == 'E' || ch == 'W'
  }

  /** The pattern matches at `i` with `d` latitude digits; the match is `d + 6` characters long. */
  predicate MatchesWith(s: string, i: nat, d: nat)
  {
    && i + d + 6 <= |s|
    && AllDigits(s[i..i + d])
    && IsLatHemisphere(s[i + d])
    && s[i + d + 1] == '_'
    && AllDigits(s[i + d + 2..i + d + 5])
    && IsLonHemisphere(s[i + d + 5])
  }

  /** The match at `i`, if any: the greedy `{2,3}` tries three digits before two. */
  function MatchAt(s: string, i: nat): (m: Option<nat>)
    ensures m.Some? ==> i + m.value <= |s|
  {
    if MatchesWith(s, i, 3) then Some(9)
    else if MatchesWith(s, i, 2) then Some(8)
    else None
  }

  /** The leftmost match starting at or after `i`. */
  function SearchFrom(s: string, i: nat): Option<string>
    decreases |s| - i
  {
    if i > |s| then None
    else match MatchAt(s, i)
      case Some(n) => Some(s[i..i + n])
      case None => SearchFrom(s, i + 1)
  }

  /** `get_lon_lat_code` */
  function LonLatCode(fileName: string): Option<string>
  {
    SearchFrom(fileName, 0)
  }

  /** Some substring of `s` matches the pattern. */
  predicate HasMatch(s: string)
  {
    exists i: nat, d: nat | i <= |s| && 2 <= d <= 3 :: MatchesWith(s, i, d)
  }

  lemma {:induction false} SearchFromNone(s: string, i: nat)
    ensures SearchFrom(s, i).None? <==> forall j: nat :: i <= j <= |s| ==> MatchAt(s, j).None?
    decreases |s| - i
  {
    if i <= |s| && MatchAt(s, i).None? {
      SearchFromNone(s, i + 1);
    }
  }

  /** `get_lon_lat_code` returns None exactly when no substring of the name matches. */
  lemma LonLatCodeNoneIff(fileName: string)
    ensures LonLatCode(fileName).None? <==> !HasMatch(fileName)
  {
    SearchFromNone(fileName, 0);
    if HasMatch(fileName) {
      var i: nat, d: nat :| i <= |fileName| && 2 <= d <= 3 && MatchesWith(fileName, i, d);
      assert MatchAt(fileName, i).Some?;
    }
  }

  lemma {:induction false} SearchFromSome(s: string, i: nat)
    requires SearchFrom(s, i).Some?
    ensures exists j: nat :: (i <= j <= |s| && MatchAt(s, j).Some?
      && SearchFrom(s, i).value == s[j..j + MatchAt(s, j).value]
      && forall k: nat :: i <= k < j ==> MatchAt(s, k).None?)
    decreases |s| - i
  {
    if MatchAt(s, i).None? {
      SearchFromSome(s, i + 1);
      var j: nat :| i + 1 <= j <= |s| && MatchAt(s, j).Some?
        && SearchFrom(s, i + 1).value == s[j..j + MatchAt(s, j).value]
        && forall k: nat :: i + 1 <= k < j ==> MatchAt(s, k).None?;
    }
  }

  /**
   * A found code is the leftmost match, taken with three latitude digits when
   * three fit at that position; it has length 8 or 9, is a substring of the name,
   * and its `_` is the fifth character from the end.
   */
  lemma LonLatCodeIsLeftmost(fileName: string)
    requires LonLatCode(fileName).Some?
    ensures var code := LonLatCode(fileName).value;
      && (|code| == 8 || |code| == 9)
      && code[|code| - 5] == '_'
      && exists i: nat :: (i + |code| <= |fileName| && code == fileName[i..i + |code|]
        && MatchesWith(fileName, i, |code| - 6)
        && (|code| == 8 ==> !MatchesWith(fileName, i, 3))
        && forall k: nat, d: nat :: k < i && 2 <= d <= 3 ==> !MatchesWith(fileName, k, d))
  {
    SearchFromSome(fileName, 0);
    var code := LonLatCode(fileName).value;
    var i: nat :| i <= |fileName| && MatchAt(fileName, i).Some?
      && code == fileName[i..i + MatchAt(fileName, i).value]
      && forall k: nat :: 0 <= k < i ==> MatchAt(fileName, k).None?;
    var n := MatchAt(fileName, i).value;
    assert |code| == n;
    assert code[|code| - 5] == fileName[i + n - 5];
    assert MatchesWith(fileName, i, n - 6);
    assert n == 8 ==> !MatchesWith(fileName, i, 3);
    forall k: nat, d: nat | k < i && 2 <= d <= 3 ensures !MatchesWith(fileName, k, d) {
      assert MatchAt(fileName, k).None?;
    }
  }

  lemma LonLatCodeExample()
    ensures LonLatCode("10N_020E.tif") == Some("10N_020E")
  {
    var s := "10N_020E.tif";
    assert !MatchesWith(s, 0, 3) by {
      assert !IsLatHemisphere(s[3]);
    }
    assert AllDigits(s[0..2]) && AllDigits(s[4..7]);
    assert MatchesWith(s, 0, 2);
    assert MatchAt(s, 0) == Some(8);
    assert s[0..8] == "10N_020E";
  }

  // ---------------------------------------------------------------------------
  // Nodata fallback and the land multiplier

  const FallbackNodata := -9999

  /**
   * When the input has no nodata value, it is set to -9999 and every -9999
   * sample is rewritten to -9999; returns the nodata value in use.
   */
  method NodataFallback(data: array2<int>, nodata: Option<int>) returns (value: int)
    modifies data
    ensures value == if nodata.None? then FallbackNodata else nodata.value
    ensures Contents(data) == old(Contents(data))
  {
    if nodata.None? {
      value := FallbackNodata;
      ghost var before := Contents(data);
      Nodata.ReplaceInPlace(data, value, value);
      Nodata.ReplaceWithItself(before, value);
    } else {
      value := nodata.value;
    }
  }

  const LandClass := 254

  /** `np.where(ref_data == 254, 1, 0)` */
  function Multiplier(reference: Grid, h: nat, w: nat): (m: Grid)
    requires IsGrid(reference, h, w)
    ensures IsGrid(m, h, w)
  {
    seq(h, r requires 0 <= r < h => seq(w, c requires 0 <= c < w => if reference[r][c] == LandClass then 1 else 0))
  }

  /**
   * A sample of the `float32` array `reproject` fills: a finite value, an
   * infinity, or NaN. The distance maps these scripts read hold `inf` at every
   * cell that is not a block centre.
   */
  datatype Float = Finite(value: real) | Infinity(negative: bool) | NaN

  /** IEEE 754 product of a sample and an integer: an infinity times 0 is NaN, and NaN stays NaN. */
  function Times(x: Float, k: int): Float
  {
    match x
    case Finite(v) => Finite(v * k as real)
    case Infinity(neg) => if k == 0 then NaN else Infinity(neg != (k < 0))
    case NaN => NaN
  }

  /** `resampled_data * multiplier`, one IEEE product per cell. */
  function Multiplied(resampled: seq<seq<Float>>, reference: Grid, h: nat, w: nat): (m: seq<seq<Float>>)
    requires IsGrid(resampled, h, w) && IsGrid(reference, h, w)
    ensures IsGrid(m, h, w)
  {
    var mult := Multiplier(reference, h, w);
    seq(h, r requires 0 <= r < h => seq(w, c requires 0 <= c < w => Times(resampled[r][c], mult[r][c])))
  }

  /**
   * The multiplier is binary and 1 exactly on land; the product keeps land
   * samples, zeroes finite samples elsewhere and turns an infinity or NaN
   * elsewhere into NaN.
   */
  lemma MultipliedKeepsLand(resampled: seq<seq<Float>>, reference: Grid, h: nat, w: nat)
    requires IsGrid(resampled, h, w) && IsGrid(reference, h, w)
    ensures IsBinary(Multiplier(reference, h, w))
    ensures forall r, c :: 0 <= r < h && 0 <= c < w ==>
      (Multiplier(reference, h, w)[r][c] == 1 <==> reference[r][c] == 254)
    ensures forall r, c :: 0 <= r < h && 0 <= c < w ==>
      Multiplied(resampled, reference, h, w)[r][c] ==
        if reference[r][c] == 254 then resampled[r][c]
        else if resampled[r][c].Finite? then Finite(0.0)
        else NaN
  {
  }

  /** A distance map's `inf` off land becomes NaN, not 0, while land keeps it. */
  lemma InfinityOffLandIsNaN(resampled: seq<seq<Float>>, reference: Grid)
    requires resampled == [[Infinity(false), Infinity(false)]] && reference == [[254, 0]]
    ensures Multiplied(resampled, reference, 1, 2) == [[Infinity(false), NaN]]
  {
    MultipliedKeepsLand(resampled, reference, 1, 2);
    var m := Multiplied(resampled, reference, 1, 2);
    assert m[0][0] == Infinity(false) && m[0][1] == NaN;
    assert m[0] == [Infinity(false), NaN];
  }

  // ---------------------------------------------------------------------------
  // Reference selection and output names

  /** One write of a processed raster: the reference used and the output file name. */
  datatype Job = Job(subdir: string, file: string, output: string)

  /** One entry of `os.walk`: a directory and the names of the files in it. */
  type WalkEntry = (string, seq<string>)

  const LandSuffix := "landpercentage.tif"

  predicate IsLandReference(file: string)
  {
    EndsWith(file, LandSuffix)
  }

  /** The reference test of the forest-edge script: a land file whose name contains the input's code. */
  predicate IsEdgeReference(file: string, code: string)
  {
    IsLandReference(file) && Contains(file, code)
  }

  /** The first file of a directory that passes the forest-edge test, if any. */
  function FirstEdgeReference(files: seq<string>, code: string): (r: Option<nat>)
    ensures r.Some? ==> r.value < |files|
    decreases |files|
  {
    if |files| == 0 then None
    else if IsEdgeReference(files[0], code) then Some(0)
    else match FirstEdgeReference(files[1..], code)
      case Some(j) => Some(j + 1)
      case None => None
  }

  lemma {:induction false} FirstEdgeReferenceSpec(files: seq<string>, code: string)
    ensures FirstEdgeReference(files, code).None? <==> forall j :: 0 <= j < |files| ==> !IsEdgeReference(files[j], code)
    ensures FirstEdgeReference(files, code).Some? ==>
      var j := FirstEdgeReference(files, code).value;
      j < |files| && IsEdgeReference(files[j], code) && forall k :: 0 <= k < j ==> !IsEdgeReference(files[k], code)
    decreases |files|
  {
    if |files| > 0 && !IsEdgeReference(files[0], code) {
      FirstEdgeReferenceSpec(files[1..], code);
      assert forall j :: 1 <= j < |files| ==> files[j] == files[1..][j - 1];
    }
  }

  /** `os.path.basename(input).replace(".tif", "_processed.tif")` */
  function EdgeOutputName(inputPath: string): string
  {
    ReplaceAll(Basename(inputPath), ".tif", "_processed.tif")
  }

  /** The writes of the forest-edge script, directory by directory: at most one per directory. */
  function EdgeJobs(walk: seq<WalkEntry>, code: string, output: string): seq<Job>
    decreases |walk|
  {
    if |walk| == 0 then []
    else
      var k := |walk| - 1;
      EdgeJobs(walk[..k], code, output) +
      match FirstEdgeReference(walk[k].1, code)
        case Some(j) => [Job(walk[k].0, walk[k].1[j], output)]
        case None => []
  }

  /**
   * `resample_and_multiply` of the forest-edge script, reduced to the writes it
   * makes: for each walked directory, the first matching reference, then `break`.
   */
  method ForestEdgeJobs(inputPath: string, walk: seq<WalkEntry>) returns (jobs: seq<Job>)
    ensures LonLatCode(Basename(inputPath)).None? ==> jobs == []
    ensures LonLatCode(Basename(inputPath)).Some? ==>
      jobs == EdgeJobs(walk, LonLatCode(Basename(inputPath)).value, EdgeOutputName(inputPath))
  {
    jobs := [];
    var inputCode := LonLatCode(Basename(inputPath));
    if inputCode.Some? {
      var code := inputCode.value;
      var output := ReplaceAll(Basename(inputPath), ".tif", "_processed.tif");
      for d := 0 to |walk|
        invariant jobs == EdgeJobs(walk[..d], code, output)
      {
        var (subdir, files) := walk[d];
        var found := None;
        var j := 0;
        while j < |files|
          invariant j <= |files|
          invariant found.None? ==> forall k :: 0 <= k < j ==> !IsEdgeReference(files[k], code)
          invariant found.Some? ==> found == FirstEdgeReference(files, code)
          decreases |files| - j, if found.None? then 1 else 0
        {
          if IsEdgeReference(files[j], code) {
            FirstEdgeFound(files, code, j);
            found := Some(j);
            break;
          }
          j := j + 1;
        }
        if found.None? {
          FirstEdgeReferenceSpec(files, code);
        } else {
          jobs := jobs + [Job(subdir, files[found.value], output)];
        }
        assert walk[..d + 1][..d] == walk[..d];
      }
      assert walk[..|walk|] == walk;
    }
  }

  lemma FirstEdgeFound(files: seq<string>, code: string, j: nat)
    requires j < |files| && IsEdgeReference(files[j], code)
    requires forall k :: 0 <= k < j ==> !IsEdgeReference(files[k], code)
    ensures FirstEdgeReference(files, code) == Some(j)
  {
    FirstEdgeReferenceSpec(files, code);
    var f := FirstEdgeReference(files, code);
    assert f.Some?;
    assert !(f.value < j) && !(j < f.value);
  }

  /**
   * Every write of the forest-edge script uses a land reference containing the
   * code, at most one per directory, and all of one input's writes go to the same
   * output name.
   */
  lemma {:induction false} EdgeJobsFacts(walk: seq<WalkEntry>, code: string, output: string)
    ensures |EdgeJobs(walk, code, output)| <= |walk|
    ensures forall job :: job in EdgeJobs(walk, code, output) ==>
      IsEdgeReference(job.file, code) && job.output == output
    decreases |walk|
  {
    if |walk| > 0 {
      var k := |walk| - 1;
      EdgeJobsFacts(walk[..k], code, output);
      FirstEdgeReferenceSpec(walk[k].1, code);
    }
  }

  /** A directory without a matching file contributes nothing; the first match wins over later ones. */
  lemma EdgeJobsOfOneDirectory(subdir: string, files: seq<string>, code: string, output: string)
    ensures FirstEdgeReference(files, code).None? ==> EdgeJobs([(subdir, files)], code, output) == []
    ensures FirstEdgeReference(files, code).Some? ==>
      EdgeJobs([(subdir, files)], code, output) == [Job(subdir, files[FirstEdgeReference(files, code).value], output)]
  {
    FirstEdgeReferenceSpec(files, code);
    assert [(subdir, files)][..0] == [];
  }

  /** A base name without a `.` gets `_processed` inserted before its extension. */
  lemma EdgeOutputNameOfTif(dir: string, stem: string)
    requires |dir| > 0 && IsPathSeparator(dir[|dir| - 1])
    requires forall k :: 0 <= k < |stem| ==> !IsPathSeparator(stem[k]) && stem[k] != '.'
    ensures EdgeOutputName(dir + stem + ".tif") == stem + "_processed.tif"
  {
    var name := stem + ".tif";
    assert dir + stem + ".tif" == dir + name;
    BasenameOfJoin(dir, name);
    forall i: nat | i < |stem| ensures !OccursAt(stem + ".tif", i, ".tif") {
      assert name[i] == stem[i];
      assert name[i..i + 4][0] == name[i];
    }
    ReplaceAllKeepsPrefix(stem, ".tif", ".tif", "_processed.tif");
    ReplaceAllLeading(".tif", "", "_processed.tif");
    assert ".tif" + "" == ".tif";
  }

  /** `os.path.basename(subdir) + "_" + os.path.basename(input)` */
  function RealOutputName(subdir: string, inputPath: string): string
  {
    Basename(subdir) + "_" + Basename(inputPath)
  }

  /** The writes for one directory: one per file ending in `landpercentage.tif`, in listing order. */
  function DirectoryJobs(subdir: string, files: seq<string>, inputPath: string): seq<Job>
    decreases |files|
  {
    if |files| == 0 then []
    else
      var k := |files| - 1;
      DirectoryJobs(subdir, files[..k], inputPath)
        + if IsLandReference(files[k]) then [Job(subdir, files[k], RealOutputName(subdir, inputPath))] else []
  }

  /** The writes of the WorksforReal script, directory by directory. */
  function RealJobs(walk: seq<WalkEntry>, inputPath: string): seq<Job>
    decreases |walk|
  {
    if |walk| == 0 then []
    else
      var k := |walk| - 1;
      RealJobs(walk[..k], inputPath) + DirectoryJobs(walk[k].0, walk[k].1, inputPath)
  }

  /** `resample_and_multiply` of the WorksforReal script, reduced to the writes it makes; no code filter, no `break`. */
  method WorksForRealJobs(inputPath: string, walk: seq<WalkEntry>) returns (jobs: seq<Job>)
    ensures jobs == RealJobs(walk, inputPath)
  {
    jobs := [];
    for d := 0 to |walk|
      invariant jobs == RealJobs(walk[..d], inputPath)
    {
      var (subdir, files) := walk[d];
      var dirJobs := ScanDirectory(subdir, files, inputPath);
      jobs := jobs + dirJobs;
      assert walk[..d + 1][..d] == walk[..d];
    }
    assert walk[..|walk|] == walk;
  }

  /** The inner loop of the WorksforReal script over one directory's files. */
  method ScanDirectory(subdir: string, files: seq<string>, inputPath: string) returns (jobs: seq<Job>)
    ensures jobs == DirectoryJobs(subdir, files, inputPath)
  {
    jobs := [];
    for j := 0 to |files|
      invariant jobs == DirectoryJobs(subdir, files[..j], inputPath)
    {
      if IsLandReference(files[j]) {
        jobs := jobs + [Job(subdir, files[j], RealOutputName(subdir, inputPath))];
      }
      assert files[..j + 1][..j] == files[..j];
    }
    assert files[..|files|] == files;
  }

  /** A directory's writes are exactly its land references, each to the directory's output name. */
  lemma {:induction false} DirectoryJobsIff(subdir: string, files: seq<string>, inputPath: string, job: Job)
    ensures job in DirectoryJobs(subdir, files, inputPath) <==>
      job.subdir == subdir && job.file in files && IsLandReference(job.file)
      && job.output == RealOutputName(subdir, inputPath)
    decreases |files|
  {
    if |files| > 0 {
      var k := |files| - 1;
      DirectoryJobsIff(subdir, files[..k], inputPath, job);
      assert files == files[..k] + [files[k]];
    }
  }

  /**
   * Every land reference of every directory is written, and each write goes to
   * the name built from its own directory.
   */
  lemma {:induction false} RealJobsFacts(walk: seq<WalkEntry>, inputPath: string)
    ensures forall job :: job in RealJobs(walk, inputPath) ==>
      IsLandReference(job.file) && job.output == RealOutputName(job.subdir, inputPath)
    ensures forall d, f :: 0 <= d < |walk| && f in walk[d].1 && IsLandReference(f) ==>
      Job(walk[d].0, f, RealOutputName(walk[d].0, inputPath)) in RealJobs(walk, inputPath)
    decreases |walk|
  {
    if |walk| > 0 {
      var k := |walk| - 1;
      RealJobsFacts(walk[..k], inputPath);
      var tail := DirectoryJobs(walk[k].0, walk[k].1, inputPath);
      forall job | job in tail ensures IsLandReference(job.file) && job.output == RealOutputName(job.subdir, inputPath) {
        DirectoryJobsIff(walk[k].0, walk[k].1, inputPath, job);
      }
      forall d, f | 0 <= d < |walk| && f in walk[d].1 && IsLandReference(f)
        ensures Job(walk[d].0, f, RealOutputName(walk[d].0, inputPath)) in RealJobs(walk, inputPath)
      {
        if d < k {
          assert walk[..k][d] == walk[d];
        } else {
          DirectoryJobsIff(walk[k].0, walk[k].1, inputPath, Job(walk[d].0, f, RealOutputName(walk[d].0, inputPath)));
        }
      }
    }
  }

  /**
   * Two different land references in one directory are both written, to the
   * same output name: the later write replaces the earlier.
   */
  lemma RealOutputCollision(subdir: string, files: seq<string>, inputPath: string, i: nat, j: nat)
    requires i < |files| && j < |files| && files[i] != files[j]
    requires IsLandReference(files[i]) && IsLandReference(files[j])
    ensures exists a, b :: (0 <= a < b < |DirectoryJobs(subdir, files, inputPath)|
      && DirectoryJobs(subdir, files, inputPath)[a].file != DirectoryJobs(subdir, files, inputPath)[b].file
      && DirectoryJobs(subdir, files, inputPath)[a].output == DirectoryJobs(subdir, files, inputPath)[b].output)
  {
    var jobs := DirectoryJobs(subdir, files, inputPath);
    var out := RealOutputName(subdir, inputPath);
    DirectoryJobsIff(subdir, files, inputPath, Job(subdir, files[i], out));
    DirectoryJobsIff(subdir, files, inputPath, Job(subdir, files[j], out));
    var a :| 0 <= a < |jobs| && jobs[a] == Job(subdir, files[i], out);
    var b :| 0 <= b < |jobs| && jobs[b] == Job(subdir, files[j], out);
    if a < b {
      assert jobs[a].file != jobs[b].file && jobs[a].output == jobs[b].output;
    } else {
      assert jobs[b].file != jobs[a].file && jobs[b].output == jobs[a].output;
    }
  }
}
