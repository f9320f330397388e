/**
 * ScriptDownloadGlobalForestWatchData.py: the Hansen loss-year tile names and
 * URLs, enumerated latitude by latitude. The HTTP download of each attempt is
 * not part of this model; the generator returns the attempts in call order.
 */
module TileDownload {
  import opened Strs
  import LossMask

  /** `list(range(start, stop, step))` for a non-zero step. */
  function PyRange(start: int, stop: int, step: int): (r: seq<int>)
    requires step != 0
    ensures forall i :: 0 <= i < |r| ==> r[i] == start + i * step
    ensures forall i :: 0 <= i < |r| ==> if step > 0 then r[i] < stop else r[i] > stop
    decreases if step > 0 then stop - start else start - stop
  {
    if (step > 0 && start >= stop) || (step < 0 && start <= stop) then []
    else
      var rest := PyRange(start + step, stop, step);
      assert forall i :: 1 <= i < |rest| + 1 ==> rest[i - 1] == start + i * step;
      [start] + rest
  }

  /** `range(30, -31, -10)` */
  function Latitudes(): seq<int>
  {
    PyRange(30, -31, -10)
  }

  /** `list(range(-180, 180, 10)) + [170]` */
  function Longitudes(): seq<int>
  {
    PyRange(-180, 180, 10) + [170]
  }

  lemma {:induction false} PyRangeLength(start: int, stop: int, step: int, n: nat)
    requires step != 0
    requires if step > 0 then start + (n - 1) * step < stop <= start + n * step
             else start + n * step <= stop < start + (n - 1) * step
    ensures |PyRange(start, stop, step)| == n
    decreases n
  {
    if n > 0 {
      PyRangeLength(start + step, stop, step, n - 1);
    }
  }

  /** Seven latitudes from 30 down to -30, and 37 longitudes: -180 to 170 by tens, then 170 once more. */
  lemma Enumeration()
    ensures |Latitudes()| == 7
    ensures forall i :: 0 <= i < 7 ==> Latitudes()[i] == 30 - 10 * i
    ensures |Longitudes()| == 37
    ensures forall j :: 0 <= j < 36 ==> Longitudes()[j] == -180 + 10 * j
    ensures Longitudes()[35] == 170 && Longitudes()[36] == 170
  {
    PyRangeLength(30, -31, -10, 7);
    PyRangeLength(-180, 180, 10, 36);
  }

  /** `f"{abs(lat)}N"` if `lat >= 0` else `f"{abs(lat)}S"`: no padding. */
  function LatPrefix(lat: int): string
  {
    NatToString(if lat < 0 then -lat else lat) + (if lat >= 0 then "N" else "S")
  }

  /** `f"{abs(lon):03}W"` if `lon < 0` else `f"{abs(lon):03}E"` */
  function LonPrefix(lon: int): string
  {
    ZeroPad3(if lon < 0 then -lon else lon) + (if lon < 0 then "W" else "E")
  }

  /** The latitude prefix is the decimal of `|lat|` without leading zeros, then the hemisphere. */
  lemma LatPrefixShape(lat: int)
    ensures var p := LatPrefix(lat);
      && |p| >= 2
      && AllDigits(p[..|p| - 1])
      && DecimalValue(p[..|p| - 1]) == (if lat < 0 then -lat else lat)
      && (p[0] == '0' <==> lat == 0)
      && (p[|p| - 1] == 'N' <==> lat >= 0)
      && (p[|p| - 1] == 'S' <==> lat < 0)
  {
    var n := if lat < 0 then -lat else lat;
    NatToStringDecimal(n);
    var p := LatPrefix(lat);
    assert p[..|p| - 1] == NatToString(n);
  }

  /** For `|lon| < 1000` the longitude prefix is exactly three digits of `|lon|` and the hemisphere. */
  lemma LonPrefixShape(lon: int)
    requires -1000 < lon < 1000
    ensures var p := LonPrefix(lon);
      && |p| == 4
      && AllDigits(p[..3])
      && DecimalValue(p[..3]) == (if lon < 0 then -lon else lon)
      && (p[3] == 'W' <==> lon < 0)
      && (p[3] == 'E' <==> lon >= 0)
  {
    var n := if lon < 0 then -lon else lon;
    ZeroPad3Decimal(n);
    assert LonPrefix(lon)[..3] == ZeroPad3(n);
  }

  lemma PrefixExamples()
    ensures LatPrefix(0) == "0N" && LatPrefix(-30) == "30S"
    ensures LonPrefix(-180) == "180W" && LonPrefix(0) == "000E" && LonPrefix(10) == "010E"
  {
    assert NatToString(0) == "0" && NatToString(1) == "1" && NatToString(3) == "3";
    assert NatToString(10) == NatToString(1) + "0" == "10";
    assert NatToString(30) == NatToString(3) + "0" == "30";
    assert NatToString(18) == NatToString(1) + "8" == "18";
    assert NatToString(180) == NatToString(18) + "0" == "180";
    assert ZeroPad3(0) == "00" + "0";
    assert ZeroPad3(10) == "0" + "10";
  }

  const BaseUrl := "https://storage.googleapis.com/earthenginepartners-hansen/GFC-2023-v1.11/Hansen_GFC-2023-v1.11_lossyear_"
  const Directory := "C:/Users/admin/Documents/Newdatasets/Forest Mask 2023/"

  /** The tile code `{lat_prefix}_{lon_prefix}`. */
  function TileCode(lat: int, lon: int): string
  {
    LatPrefix(lat) + "_" + LonPrefix(lon)
  }

  /** One call `download_file(url, filename)`. */
  datatype Attempt = Attempt(url: string, filename: string)

  function MakeAttempt(lat: int, lon: int): Attempt
  {
    var latPrefix, lonPrefix := LatPrefix(lat), LonPrefix(lon);
    Attempt(BaseUrl + latPrefix + "_" + lonPrefix + ".tif",
            Directory + "Hansen_GFC-2023-v1.11_lossyear_" + latPrefix + "_" + lonPrefix + ".tif")
  }

  /** Entry `a * |lons| + b` of `xs` is `f(lats[a], lons[b])` for the first `i` latitudes. */
  ghost predicate Enumerated<T>(xs: seq<T>, i: nat, lats: seq<int>, lons: seq<int>, f: (int, int) -> T)
    requires i <= |lats|
  {
    && |xs| == i * |lons|
    && forall a, b :: 0 <= a < i && 0 <= b < |lons| ==>
         a * |lons| + b < |xs| && xs[a * |lons| + b] == f(lats[a], lons[b])
  }

  /** Appending the row of latitude `i` extends the enumeration by one latitude. */
  lemma AppendRow<T>(xs: seq<T>, row: seq<T>, i: nat, lats: seq<int>, lons: seq<int>, f: (int, int) -> T)
    requires i < |lats| && Enumerated(xs, i, lats, lons, f)
    requires |row| == |lons| && forall b :: 0 <= b < |lons| ==> row[b] == f(lats[i], lons[b])
    ensures Enumerated(xs + row, i + 1, lats, lons, f)
  {
    MulStep(i + 1, |lons|);
    forall a, b | 0 <= a < i + 1 && 0 <= b < |lons|
      ensures a * |lons| + b < |xs + row| && (xs + row)[a * |lons| + b] == f(lats[a], lons[b])
    {
      AppendRowEntry(xs, row, i, lats, lons, f, a, b);
    }
  }

  /** One entry of the extended enumeration: from the old rows, or from the appended one. */
  lemma AppendRowEntry<T>(xs: seq<T>, row: seq<T>, i: nat, lats: seq<int>, lons: seq<int>, f: (int, int) -> T,
                          a: nat, b: nat)
    requires i < |lats| && Enumerated(xs, i, lats, lons, f)
    requires |row| == |lons| && forall b :: 0 <= b < |lons| ==> row[b] == f(lats[i], lons[b])
    requires a < i + 1 && b < |lons|
    ensures a * |lons| + b < |xs + row| && (xs + row)[a * |lons| + b] == f(lats[a], lons[b])
  {
    var n := |lons|;
    var ys := xs + row;
    MulStep(i + 1, n);
    RowIndexBound(a, i, n, b);
    if a < i {
      assert ys[a * n + b] == xs[a * n + b];
    } else {
      assert a * n + b == |xs| + b;
      assert ys[a * n + b] == row[b];
    }
  }

  /** `generate_filenames_and_urls`: latitude in the outer loop, longitude in the inner. */
  method GenerateFilenamesAndUrls() returns (attempts: seq<Attempt>)
    ensures Enumerated(attempts, |Latitudes()|, Latitudes(), Longitudes(), MakeAttempt)
  {
    var latitudes := PyRange(30, -31, -10);
    var longitudes := PyRange(-180, 180, 10) + [170];
    attempts := [];
    for i := 0 to |latitudes|
      invariant Enumerated(attempts, i, latitudes, longitudes, MakeAttempt)
    {
      var row := LatitudeAttempts(latitudes[i], longitudes);
      AppendRow(attempts, row, i, latitudes, longitudes, MakeAttempt);
      attempts := attempts + row;
    }
  }

  /** The inner loop: the attempts of one latitude, in longitude order. */
  method LatitudeAttempts(lat: int, longitudes: seq<int>) returns (row: seq<Attempt>)
    ensures |row| == |longitudes|
    ensures forall b :: 0 <= b < |longitudes| ==> row[b] == MakeAttempt(lat, longitudes[b])
  {
    var latPrefix := LatPrefix(lat);
    row := [];
    for j := 0 to |longitudes|
      invariant |row| == j
      invariant forall b :: 0 <= b < j ==> row[b] == MakeAttempt(lat, longitudes[b])
    {
      var lon := longitudes[j];
      var lonPrefix := LonPrefix(lon);
      var filename := Directory + "Hansen_GFC-2023-v1.11_lossyear_" + latPrefix + "_" + lonPrefix + ".tif";
      var url := BaseUrl + latPrefix + "_" + lonPrefix + ".tif";
      row := row + [Attempt(url, filename)];
    }
  }

  lemma RowIndexBound(i: nat, k: nat, n: nat, j: nat)
    requires i <= k && j < n
    ensures i * n + j < (k + 1) * n
    ensures i < k ==> i * n + j < k * n
  {
    MulMonotone(i + 1, k + 1, n);
    MulStep(i + 1, n);
    if i < k {
      MulMonotone(i + 1, k, n);
    }
  }

  lemma {:induction false} MulMonotone(a: nat, b: nat, n: nat)
    requires a <= b
    ensures a * n <= b * n
    decreases b - a
  {
    if a < b {
      MulMonotone(a, b - 1, n);
      MulStep(b, n);
    }
  }

  lemma MulStep(i: nat, n: nat)
    requires i > 0
    ensures (i - 1) * n + n == i * n
  {
  }

  /** 259 attempts in all, and the tile at 170E is requested twice for every latitude. */
  lemma AttemptCount(attempts: seq<Attempt>)
    requires Enumerated(attempts, |Latitudes()|, Latitudes(), Longitudes(), MakeAttempt)
    ensures |attempts| == 259
    ensures forall i :: 0 <= i < 7 ==> attempts[37 * i + 35] == attempts[37 * i + 36] == MakeAttempt(30 - 10 * i, 170)
  {
    Enumeration();
    var lats, lons := Latitudes(), Longitudes();
    RepeatedLongitude(attempts, lats, lons, MakeAttempt);
    forall i | 0 <= i < 7 ensures attempts[37 * i + 35] == attempts[37 * i + 36] == MakeAttempt(30 - 10 * i, 170) {
      assert lats[i] == 30 - 10 * i;
    }
  }

  /** With 37 longitudes whose last two are equal, every latitude's last two attempts coincide. */
  lemma RepeatedLongitude<T>(xs: seq<T>, lats: seq<int>, lons: seq<int>, f: (int, int) -> T)
    requires Enumerated(xs, |lats|, lats, lons, f)
    requires |lons| == 37 && lons[35] == lons[36]
    ensures |xs| == |lats| * 37
    ensures forall i :: 0 <= i < |lats| ==>
      37 * i + 36 < |xs| && xs[37 * i + 35] == xs[37 * i + 36] == f(lats[i], lons[35])
  {
    forall i | 0 <= i < |lats|
      ensures 37 * i + 36 < |xs| && xs[37 * i + 35] == xs[37 * i + 36] == f(lats[i], lons[35])
    {
      assert i * 37 + 35 < |xs| && xs[i * 37 + 35] == f(lats[i], lons[35]);
      assert i * 37 + 36 < |xs| && xs[i * 37 + 36] == f(lats[i], lons[36]);
    }
  }

  lemma EndsWithAppend(a: string, b: string)
    ensures EndsWith(a + b, b)
  {
    assert (a + b)[|a + b| - |b|..] == b;
  }

  /** The file name and the URL of one attempt end in the same tile code and extension. */
  lemma SharedSuffix(lat: int, lon: int)
    ensures EndsWith(MakeAttempt(lat, lon).url, TileCode(lat, lon) + ".tif")
    ensures EndsWith(MakeAttempt(lat, lon).filename, LossMask.LossPrefix + TileCode(lat, lon) + ".tif")
  {
    AttemptParts(lat, lon);
    EndsWithAppend(BaseUrl, TileCode(lat, lon) + ".tif");
    EndsWithAppend(Directory, LossMask.LossPrefix + TileCode(lat, lon) + ".tif");
  }

  /** The URL is the base URL and the saved name; the file name is the directory and the saved name. */
  lemma AttemptParts(lat: int, lon: int)
    ensures MakeAttempt(lat, lon).url == BaseUrl + (TileCode(lat, lon) + ".tif")
    ensures MakeAttempt(lat, lon).filename == Directory + (LossMask.LossPrefix + TileCode(lat, lon) + ".tif")
  {
    var lp, op := LatPrefix(lat), LonPrefix(lon);
    Regroup(BaseUrl, lp, op);
    Regroup(Directory + LossMask.LossPrefix, lp, op);
    Regroup2(Directory, LossMask.LossPrefix, lp + "_" + op);
  }

  /** `a + lp + "_" + op + ".tif"` is `a` followed by the tile code and the extension. */
  lemma Regroup(a: string, lp: string, op: string)
    ensures a + lp + "_" + op + ".tif" == a + ((lp + "_" + op) + ".tif")
  {
  }

  lemma Regroup2(a: string, b: string, c: string)
    ensures a + b + c + ".tif" == a + (b + c + ".tif")
  {
  }

  /** Every tile code this script builds is made of digits, hemisphere letters and `_`. */
  lemma TileCodeChars(lat: int, lon: int)
    requires -1000 < lon < 1000
    ensures LossMask.IsTileCode(TileCode(lat, lon))
  {
    var code := TileCode(lat, lon);
    LatPrefixShape(lat);
    LonPrefixShape(lon);
    var lp, op := LatPrefix(lat), LonPrefix(lon);
    forall k | 0 <= k < |code| ensures LossMask.TileCodeChar(code[k]) {
      if k < |lp| - 1 {
        assert code[k] == lp[..|lp| - 1][k];
      } else if k < |lp| + 1 {
      } else if k < |lp| + 4 {
        assert code[k] == op[..3][k - |lp| - 1];
      }
    }
  }

  /** A saved name built from a tile code holds no path separator. */
  lemma SavedNamePlain(code: string)
    requires LossMask.IsTileCode(code)
    ensures var name := LossMask.LossPrefix + code + ".tif";
      forall k :: 0 <= k < |name| ==> !IsPathSeparator(name[k])
  {
    var name := LossMask.LossPrefix + code + ".tif";
    forall k | 0 <= k < |name| ensures !IsPathSeparator(name[k]) {
      if k >= |LossMask.LossPrefix| && k < |LossMask.LossPrefix| + |code| {
        assert name[k] == code[k - |LossMask.LossPrefix|];
        assert LossMask.TileCodeChar(code[k - |LossMask.LossPrefix|]);
      }
    }
  }

  /**
   * The files this script saves have the names the forest-mask script expects:
   * its `tile_info` on the base name gives back the tile code.
   */
  lemma DownloadedNamesGiveTileInfo(lat: int, lon: int)
    requires -1000 < lon < 1000
    ensures LossMask.TileInfo(Basename(MakeAttempt(lat, lon).filename)) == TileCode(lat, lon)
  {
    var code := TileCode(lat, lon);
    TileCodeChars(lat, lon);
    SavedNamePlain(code);
    AttemptParts(lat, lon);
    BasenameOfJoin(Directory, LossMask.LossPrefix + code + ".tif");
    LossMask.TileInfoOfLossFile(code);
  }
}
