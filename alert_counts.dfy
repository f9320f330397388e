/**
 * CountingPixelsIntegratedAlertsForDifferentTreecoverTresholds.py: for every
 * alert raster (already reprojected onto the tree-cover grid) and every
 * tree-cover threshold, the number of pixels with `tree >= t` and `alert > 0`,
 * collected in a dictionary of lists; and the CSV rows written from it.
 */
module AlertCounts {
  import opened Grids

  /** The number of `true` entries of a row. */
  function RowTrue(row: seq<bool>): (n: nat)
    ensures n <= |row|
  {
    if |row| == 0 then 0 else RowTrue(row[..|row| - 1]) + (if row[|row| - 1] then 1 else 0)
  }

  /** `np.sum` of a boolean band: the number of `true` pixels. */
  function CountTrue(m: seq<seq<bool>>): nat
  {
    if |m| == 0 then 0 else CountTrue(m[..|m| - 1]) + RowTrue(m[|m| - 1])
  }

  /** `np.logical_and(tree_cover_data >= threshold, resampled_alert_data > 0)` */
  function HitMask(tree: Grid, alert: Grid, t: int, h: nat, w: nat): (m: seq<seq<bool>>)
    requires IsGrid(tree, h, w) && IsGrid(alert, h, w)
    ensures IsGrid(m, h, w)
  {
    seq(h, r requires 0 <= r < h => seq(w, c requires 0 <= c < w => tree[r][c] >= t && alert[r][c] > 0))
  }

  /** The pixels with an active alert (`alert > 0`), whatever the tree cover. */
  function AlertMask(alert: Grid, h: nat, w: nat): (m: seq<seq<bool>>)
    requires IsGrid(alert, h, w)
    ensures IsGrid(m, h, w)
  {
    seq(h, r requires 0 <= r < h => seq(w, c requires 0 <= c < w => alert[r][c] > 0))
  }

  /** The pixels whose tree cover reaches `t`. */
  function CoverMask(tree: Grid, t: int, h: nat, w: nat): (m: seq<seq<bool>>)
    requires IsGrid(tree, h, w)
    ensures IsGrid(m, h, w)
  {
    seq(h, r requires 0 <= r < h => seq(w, c requires 0 <= c < w => tree[r][c] >= t))
  }

  /** One count of the script: alert pixels whose tree cover reaches `t`. */
  function AlertCount(tree: Grid, alert: Grid, t: int, h: nat, w: nat): nat
    requires IsGrid(tree, h, w) && IsGrid(alert, h, w)
  {
    CountTrue(HitMask(tree, alert, t, h, w))
  }

  /** Every `true` of `m1` is a `true` of `m2`. */
  predicate Implies(m1: seq<seq<bool>>, m2: seq<seq<bool>>)
  {
    && |m1| == |m2|
    && (forall r :: 0 <= r < |m1| ==> |m1[r]| == |m2[r]|)
    && (forall r, c :: 0 <= r < |m1| && 0 <= c < |m1[r]| && m1[r][c] ==> m2[r][c])
  }

  lemma {:induction false} RowTrueMonotone(a: seq<bool>, b: seq<bool>)
    requires |a| == |b| && forall c :: 0 <= c < |a| && a[c] ==> b[c]
    ensures RowTrue(a) <= RowTrue(b)
    decreases |a|
  {
    if |a| > 0 {
      RowTrueMonotone(a[..|a| - 1], b[..|b| - 1]);
    }
  }

  /** Counting is monotone: a band whose `true` pixels are among another's counts no more. */
  lemma {:induction false} CountTrueMonotone(m1: seq<seq<bool>>, m2: seq<seq<bool>>)
    requires Implies(m1, m2)
    ensures CountTrue(m1) <= CountTrue(m2)
    decreases |m1|
  {
    if |m1| > 0 {
      var k := |m1| - 1;
      assert Implies(m1[..k], m2[..k]) by {
        forall r | 0 <= r < k ensures |m1[..k][r]| == |m2[..k][r]| {
          assert m1[..k][r] == m1[r] && m2[..k][r] == m2[r];
        }
        forall r, c | 0 <= r < k && 0 <= c < |m1[..k][r]| && m1[..k][r][c] ensures m2[..k][r][c] {
          assert m1[..k][r] == m1[r] && m2[..k][r] == m2[r];
        }
      }
      CountTrueMonotone(m1[..k], m2[..k]);
      RowTrueMonotone(m1[k], m2[k]);
    }
  }

  /** A count is at most the number of alert pixels and at most the number of pixels reaching the threshold. */
  lemma CountBounds(tree: Grid, alert: Grid, t: int, h: nat, w: nat)
    requires IsGrid(tree, h, w) && IsGrid(alert, h, w)
    ensures AlertCount(tree, alert, t, h, w) <= CountTrue(AlertMask(alert, h, w))
    ensures AlertCount(tree, alert, t, h, w) <= CountTrue(CoverMask(tree, t, h, w))
  {
    CountTrueMonotone(HitMask(tree, alert, t, h, w), AlertMask(alert, h, w));
    CountTrueMonotone(HitMask(tree, alert, t, h, w), CoverMask(tree, t, h, w));
  }

  /** For one alert raster, a higher threshold never gives a higher count. */
  lemma CountNonIncreasing(tree: Grid, alert: Grid, t1: int, t2: int, h: nat, w: nat)
    requires IsGrid(tree, h, w) && IsGrid(alert, h, w) && t1 <= t2
    ensures AlertCount(tree, alert, t2, h, w) <= AlertCount(tree, alert, t1, h, w)
  {
    CountTrueMonotone(HitMask(tree, alert, t2, h, w), HitMask(tree, alert, t1, h, w));
  }

  /** At threshold 0 with non-negative tree cover, every alert pixel counts. */
  lemma ZeroThresholdCountsAllAlerts(tree: Grid, alert: Grid, h: nat, w: nat)
    requires IsGrid(tree, h, w) && IsGrid(alert, h, w) && NonNegative(tree)
    ensures AlertCount(tree, alert, 0, h, w) == CountTrue(AlertMask(alert, h, w))
  {
    CountTrueMonotone(HitMask(tree, alert, 0, h, w), AlertMask(alert, h, w));
    CountTrueMonotone(AlertMask(alert, h, w), HitMask(tree, alert, 0, h, w));
  }

  /** The number of times `t` occurs in `ts`. */
  function Occurrences(ts: seq<int>, t: int): (n: nat)
    ensures n <= |ts|
    ensures t !in ts ==> n == 0
  {
    if |ts| == 0 then 0 else Occurrences(ts[..|ts| - 1], t) + (if ts[|ts| - 1] == t then 1 else 0)
  }

  /**
   * The list `results[t]` after the first `|alerts|` files: each file appends its
   * count once per occurrence of `t` in `thresholds`.
   */
  function Expected(tree: Grid, alerts: seq<Grid>, ts: seq<int>, t: int, h: nat, w: nat): seq<nat>
    requires IsGrid(tree, h, w) && forall i :: 0 <= i < |alerts| ==> IsGrid(alerts[i], h, w)
  {
    if |alerts| == 0 then []
    else
      var k := |alerts| - 1;
      Expected(tree, alerts[..k], ts, t, h, w) + seq(Occurrences(ts, t), _ => AlertCount(tree, alerts[k], t, h, w))
  }

  /**
   * `get_monthly_alert_counts`: `alerts` are the resampled alert rasters in file
   * order. The keys are the thresholds and each list holds, file by file, the
   * count for that threshold.
   */
  method GetMonthlyAlertCounts(tree: Grid, h: nat, w: nat, alerts: seq<Grid>, thresholds: seq<int>)
    returns (results: map<int, seq<nat>>)
    requires IsGrid(tree, h, w) && forall i :: 0 <= i < |alerts| ==> IsGrid(alerts[i], h, w)
    ensures results.Keys == set t | t in thresholds
    ensures forall t :: t in results ==> results[t] == Expected(tree, alerts, thresholds, t, h, w)
  {
    results := map t | t in thresholds :: [];
    for i := 0 to |alerts|
      invariant results.Keys == set t | t in thresholds
      invariant forall t :: t in results ==> results[t] == Expected(tree, alerts[..i], thresholds, t, h, w)
    {
      var next := AppendFileCounts(tree, alerts[i], h, w, thresholds, results);
      FileStep(tree, alerts, thresholds, i, results, next, h, w);
      results := next;
    }
    assert alerts[..|alerts|] == alerts;
  }

  /** The inner loop over the thresholds for one alert file: each threshold appends its count. */
  method AppendFileCounts(tree: Grid, alert: Grid, h: nat, w: nat, thresholds: seq<int>, before: map<int, seq<nat>>)
    returns (results: map<int, seq<nat>>)
    requires IsGrid(tree, h, w) && IsGrid(alert, h, w)
    requires forall t :: t in thresholds ==> t in before
    ensures results.Keys == before.Keys
    ensures forall t :: t in results ==> AppendedSoFar(tree, alert, thresholds, |thresholds|, before[t], results[t], t, h, w)
  {
    results := before;
    for j := 0 to |thresholds|
      invariant results.Keys == before.Keys
      invariant forall t :: t in results ==> AppendedSoFar(tree, alert, thresholds, j, before[t], results[t], t, h, w)
    {
      var t := thresholds[j];
      var count := AlertCount(tree, alert, t, h, w);
      assert t in before;
      AppendStep(tree, alert, thresholds, j, before, results, h, w);
      ghost var prev := results;
      results := results[t := results[t] + [count]];
      assert results == prev[thresholds[j] := prev[thresholds[j]] + [AlertCount(tree, alert, thresholds[j], h, w)]];
    }
  }

  /** After the first `j` thresholds of one file, `now` is `prev` with that file's counts appended. */
  ghost predicate AppendedSoFar(tree: Grid, alert: Grid, ts: seq<int>, j: nat, prev: seq<nat>, now: seq<nat>, t: int, h: nat, w: nat)
    requires IsGrid(tree, h, w) && IsGrid(alert, h, w) && j <= |ts|
  {
    now == prev + seq(Occurrences(ts[..j], t), _ => AlertCount(tree, alert, t, h, w))
  }

  lemma AppendStep(tree: Grid, alert: Grid, ts: seq<int>, j: nat, before: map<int, seq<nat>>,
                   results: map<int, seq<nat>>, h: nat, w: nat)
    requires IsGrid(tree, h, w) && IsGrid(alert, h, w) && j < |ts|
    requires results.Keys == before.Keys && ts[j] in results
    requires forall t :: t in results ==> AppendedSoFar(tree, alert, ts, j, before[t], results[t], t, h, w)
    ensures var r := results[ts[j] := results[ts[j]] + [AlertCount(tree, alert, ts[j], h, w)]];
      forall t :: t in r ==> AppendedSoFar(tree, alert, ts, j + 1, before[t], r[t], t, h, w)
  {
    assert ts[..j + 1][..j] == ts[..j];
  }

  lemma FileStep(tree: Grid, alerts: seq<Grid>, ts: seq<int>, i: nat, before: map<int, seq<nat>>,
                 results: map<int, seq<nat>>, h: nat, w: nat)
    requires IsGrid(tree, h, w) && forall k :: 0 <= k < |alerts| ==> IsGrid(alerts[k], h, w)
    requires i < |alerts| && results.Keys == before.Keys
    requires forall t :: t in before ==> before[t] == Expected(tree, alerts[..i], ts, t, h, w)
    requires forall t :: t in results ==> AppendedSoFar(tree, alerts[i], ts, |ts|, before[t], results[t], t, h, w)
    ensures forall t :: t in results ==> results[t] == Expected(tree, alerts[..i + 1], ts, t, h, w)
  {
    assert ts[..|ts|] == ts;
    assert alerts[..i + 1][..i] == alerts[..i];
  }

  /** No threshold is listed twice. */
  predicate Distinct(ts: seq<int>)
  {
    forall i, j :: 0 <= i < j < |ts| ==> ts[i] != ts[j]
  }

  lemma {:induction false} OccursOnce(ts: seq<int>, t: int)
    requires Distinct(ts) && t in ts
    ensures Occurrences(ts, t) == 1
    decreases |ts|
  {
    var k := |ts| - 1;
    if ts[k] == t {
      assert t !in ts[..k];
    } else {
      assert t in ts[..k];
      OccursOnce(ts[..k], t);
    }
  }

  /** With distinct thresholds each list holds exactly one count per alert file, in file order. */
  lemma {:induction false} OneCountPerFile(tree: Grid, alerts: seq<Grid>, ts: seq<int>, t: int, h: nat, w: nat)
    requires IsGrid(tree, h, w) && forall i :: 0 <= i < |alerts| ==> IsGrid(alerts[i], h, w)
    requires Distinct(ts) && t in ts
    ensures |Expected(tree, alerts, ts, t, h, w)| == |alerts|
    ensures forall i :: 0 <= i < |alerts| ==> Expected(tree, alerts, ts, t, h, w)[i] == AlertCount(tree, alerts[i], t, h, w)
    decreases |alerts|
  {
    if |alerts| > 0 {
      var k := |alerts| - 1;
      OccursOnce(ts, t);
      OneCountPerFile(tree, alerts[..k], ts, t, h, w);
    }
  }

  /** A threshold listed twice gets two counts per file: the dictionary keeps one key, the loop appends twice. */
  lemma DuplicateThresholdExample(tree: Grid, alert: Grid, h: nat, w: nat)
    requires IsGrid(tree, h, w) && IsGrid(alert, h, w)
    ensures |Expected(tree, [alert], [10, 10], 10, h, w)| == 2
  {
    assert [10, 10][..1] == [10];
    assert [10][..0] == [];
  }

  /** A cell of a CSV row. */
  datatype Cell = Text(s: string) | Number(n: int)

  /** `[tile_name, threshold, *counts]` */
  function CsvRow(tile: string, threshold: int, counts: seq<nat>): (row: seq<Cell>)
    ensures |row| == 2 + |counts|
    ensures row[0] == Text(tile) && row[1] == Number(threshold)
    ensures forall i :: 0 <= i < |counts| ==> row[2 + i] == Number(counts[i])
  {
    [Text(tile), Number(threshold)] + seq(|counts|, i requires 0 <= i < |counts| => Number(counts[i]))
  }

  /** The thresholds in the dictionary's key order: first occurrence order. */
  function FirstOccurrences(ts: seq<int>): (ks: seq<int>)
    ensures forall t :: t in ks <==> t in ts
    ensures Distinct(ks)
  {
    if |ts| == 0 then []
    else
      var ks := FirstOccurrences(ts[..|ts| - 1]);
      assert forall t :: t in ts <==> t in ts[..|ts| - 1] || t == ts[|ts| - 1];
      if ts[|ts| - 1] in ks then ks else ks + [ts[|ts| - 1]]
  }

  /** `save_results_to_csv`: one row per key of `results`, in key order. */
  function CsvRows(results: map<int, seq<nat>>, tile: string, keys: seq<int>): (rows: seq<seq<Cell>>)
    requires forall t :: t in keys ==> t in results
    ensures |rows| == |keys|
    ensures forall i :: 0 <= i < |keys| ==> rows[i] == CsvRow(tile, keys[i], results[keys[i]])
  {
    seq(|keys|, i requires 0 <= i < |keys| => CsvRow(tile, keys[i], results[keys[i]]))
  }

  /** With distinct thresholds, every row written for a tile has `2 + |alerts|` cells. */
  lemma RowLength(tree: Grid, h: nat, w: nat, alerts: seq<Grid>, thresholds: seq<int>,
                  results: map<int, seq<nat>>, tile: string)
    requires IsGrid(tree, h, w) && forall i :: 0 <= i < |alerts| ==> IsGrid(alerts[i], h, w)
    requires Distinct(thresholds)
    requires results.Keys == set t | t in thresholds
    requires forall t :: t in results ==> results[t] == Expected(tree, alerts, thresholds, t, h, w)
    ensures forall row :: row in CsvRows(results, tile, FirstOccurrences(thresholds)) ==> |row| == 2 + |alerts|
  {
    var keys := FirstOccurrences(thresholds);
    forall i | 0 <= i < |keys| ensures |CsvRows(results, tile, keys)[i]| == 2 + |alerts| {
      OneCountPerFile(tree, alerts, thresholds, keys[i], h, w);
    }
  }
}
