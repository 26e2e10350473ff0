/**
 * The summary builder of the reporting plugin: the number of tests in each
 * list of a report, with the report's date.
 */
module Summary {
  import opened Wrappers
  import opened Report

  /**
   * The summary `_prepare_summary` computes from `report` when the clock reads
   * `now`: each key holding a list maps to that list's length, and `date` maps
   * to the report's date (to `now` when the report has none).
   */
  function SummaryOf(report: Dict, now: string): (summary: Dict)
    ensures forall k :: k in summary <==> k == "date" || (k in report && report[k].List?)
    ensures forall k | k in report && report[k].List? && k != "date" :: summary[k] == Int(|report[k].items|)
    ensures "date" in report ==> summary["date"] == report["date"]
    ensures "date" !in report ==> summary["date"] == Str(now)
  {
    var counts := map k | k in report && report[k].List? :: Int(|report[k].items|);
    counts["date" := if "date" in report then report["date"] else Str(now)]
  }

  /** `_prepare_summary(report)` with the clock reading `now`. */
  method PrepareSummary(report: Dict, now: string) returns (summary: Dict)
    ensures summary == SummaryOf(report, now)
  {
    summary := map[];
    var pending := report.Keys;
    while pending != {}
      invariant pending <= report.Keys
      invariant forall k :: k in summary <==> k in report && k !in pending && report[k].List?
      invariant forall k | k in summary :: summary[k] == Int(|report[k].items|)
      decreases pending
    {
      var key :| key in pending;
      if report[key].List? {
        summary := summary[key := Int(|report[key].items|)];
      }
      pending := pending - {key};
    }
    summary := summary["date" := if "date" in report then report["date"] else Str(now)];
    var spec := SummaryOf(report, now);
    assert forall k :: k in summary <==> k in spec;
  }

  /**
   * The summary of a report carries the report's date and has one key for
   * each report key whose stats value is a list, besides `date`.
   */
  lemma SummaryOfReportKeys(stats: map<string, StatsGroup>, date: string, now: string)
    ensures var summary := SummaryOf(ReportOf(stats, date), now);
      && summary["date"] == Str(date)
      && (forall k :: k in summary <==> k == "date" || (k in ReportKeys && Group(stats, k).Records?))
  {
  }

  /** For a report key whose stats value is a list, the summary counts the records that have a node id. */
  lemma SummaryOfReportCounts(stats: map<string, StatsGroup>, date: string, now: string, key: string)
    requires key in ReportKeys && Group(stats, key).Records?
    ensures var records := Group(stats, key).records;
      SummaryOf(ReportOf(stats, date), now)[key] == Int(|records| - multiset(records)[None])
  {
    var report := ReportOf(stats, date);
    var records := Group(stats, key).records;
    NamesCount(records);
    assert |multiset(report[key].items)| == |report[key].items|;
    assert |multiset(Names(records))| == |Names(records)|;
  }
}
