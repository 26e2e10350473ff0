/**
 * The trend updater of the reporting plugin: the list of summaries kept
 * across runs either grows by the new summary or has its last entry replaced
 * by it, so that consecutive runs with the same counts collapse into one point.
 */
module Trend {
  import opened Report

  /**
   * Some non-`date` key of `summary` has a different value in `last`, a key
   * missing from `last` counting as different (`dict.get` gives `None`).
   */
  predicate ValuesDiffer(last: Dict, summary: Dict) {
    exists k | k in summary :: k != "date" && (k !in last || last[k] != summary[k])
  }

  /** `summary` is a new trend point after `last`: a different number of keys, or a different value. */
  predicate Changed(last: Dict, summary: Dict) {
    |summary| != |last| || ValuesDiffer(last, summary)
  }

  /** The condition under which `_update_trend` appends rather than replaces. */
  predicate Appends(trend: seq<Dict>, summary: Dict) {
    |trend| < 2 || Changed(trend[|trend| - 1], summary)
  }

  /** The trend after `_update_trend(summary, trend)`. */
  function Updated(trend: seq<Dict>, summary: Dict): (r: seq<Dict>)
    ensures |r| == |trend| + 1 <==> Appends(trend, summary)
    ensures |r| == |trend| <==> !Appends(trend, summary)
    ensures |r| > 0 && r[|r| - 1] == summary
    ensures forall i | 0 <= i < |trend| - 1 :: r[i] == trend[i]
    ensures |trend| < 2 ==> r == trend + [summary]
    ensures Appends(trend, summary) ==> r[..|trend|] == trend
    ensures |trend| >= 2 && |summary| == |trend[|trend| - 1]| && !ValuesDiffer(trend[|trend| - 1], summary)
      ==> |r| == |trend|
  {
    if Appends(trend, summary) then trend + [summary]
    else trend[..|trend| - 1] + [summary]
  }

  /**
   * Python's `any(trend[-1].get(key) != summary.get(key) for key in summary.keys() if key != "date")`,
   * which stops at the first key whose value differs.
   */
  method AnyValueDiffers(last: Dict, summary: Dict) returns (differs: bool)
    ensures differs == ValuesDiffer(last, summary)
  {
    var pending := summary.Keys;
    while pending != {}
      invariant pending <= summary.Keys
      invariant forall k | k in summary && k !in pending && k != "date" :: k in last && last[k] == summary[k]
      decreases pending
    {
      var key :| key in pending;
      if key != "date" && (key !in last || last[key] != summary[key]) {
        return true;
      }
      pending := pending - {key};
    }
    return false;
  }

  /** The Python list object that holds the trend. */
  class TrendList {
    var entries: seq<Dict>

    constructor (entries: seq<Dict>)
      ensures this.entries == entries
    {
      this.entries := entries;
    }
  }

  /** `_update_trend(summary, trend)`: updates the list in place (the source also returns it). */
  method UpdateTrend(summary: Dict, trend: TrendList)
    modifies trend
    ensures trend.entries == Updated(old(trend.entries), summary)
  {
    var append := |trend.entries| < 2;
    if !append {
      var last := trend.entries[|trend.entries| - 1];
      append := |summary| != |last|;
      if !append {
        append := AnyValueDiffers(last, summary);
      }
    }
    if append {
      trend.entries := trend.entries + [summary];
    } else {
      trend.entries := trend.entries[|trend.entries| - 1 := summary];
    }
  }

  /** Every summary in the trend carries a date. */
  predicate Dated(trend: seq<Dict>) {
    forall i | 0 <= i < |trend| :: "date" in trend[i]
  }

  /**
   * From the third entry on, each entry is a new point after the one before
   * it: runs with unchanged counts have been collapsed.
   */
  predicate Collapsed(trend: seq<Dict>) {
    forall i | 2 <= i < |trend| :: Changed(trend[i - 1], trend[i])
  }

  /**
   * Two dated summaries of which the second is no new point after the first
   * differ at most in their dates, so any summary is a new point after one
   * exactly when it is after the other.
   */
  lemma UnchangedIsInterchangeable(prev: Dict, last: Dict, summary: Dict)
    requires "date" in last && "date" in summary
    requires !Changed(last, summary)
    ensures Changed(prev, last) == Changed(prev, summary)
  {
    assert summary.Keys <= last.Keys;
    assert |summary.Keys| == |last.Keys|;
    assert |last.Keys - summary.Keys| == |last.Keys| - |summary.Keys|;
    assert last.Keys == summary.Keys;
    assert forall k | k in summary && k != "date" :: last[k] == summary[k];
  }

  /** Updating a dated, collapsed trend with a dated summary keeps it dated and collapsed. */
  lemma UpdatedKeepsCollapsed(trend: seq<Dict>, summary: Dict)
    requires Dated(trend) && Collapsed(trend) && "date" in summary
    ensures Dated(Updated(trend, summary)) && Collapsed(Updated(trend, summary))
  {
    var r := Updated(trend, summary);
    var n := |trend|;
    if !Appends(trend, summary) && n >= 3 {
      UnchangedIsInterchangeable(trend[n - 2], trend[n - 1], summary);
      assert Changed(r[n - 2], r[n - 1]);
    }
  }
}
