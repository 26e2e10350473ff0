/**
 * The report builder of the pytest reporting plugin: from the stats pytest
 * keeps per outcome, a dated dictionary of the sorted test names that passed,
 * failed and were skipped.
 */
module Report {
  import opened Wrappers
  import opened Strings
  import opened Ordering

  /** A value stored in a report or summary dictionary (and in the trend file). */
  datatype Value = List(items: seq<string>) | Int(n: int) | Str(s: string)

  /** A Python dict from string keys to values. */
  type Dict = map<string, Value>

  /** A pytest test-result record: `Some(id)` when it has a `nodeid` attribute. */
  type Record = Option<string>

  /** What `terminalreporter.stats` holds under one key: a list of records, or any other object. */
  datatype StatsGroup = Records(records: seq<Record>) | NotAList

  /** The stats keys that make it into the report, in the order they are visited. */
  const ReportKeys: seq<string> := ["passed", "failed", "skipped"]

  /** The separator between the parts of a pytest node id. */
  const Separator: string := "::"

  /** The text that marks a node-id part as a file name. */
  const FileMarker: string := ".py"

  /** The node id with every part that names a Python file removed. */
  function RecordName(nodeid: string): string {
    Join(Without(Split(nodeid, Separator), FileMarker), Separator)
  }

  /** A record name never contains `.py`, not even across a separator. */
  lemma RecordNameHasNoFileMarker(nodeid: string)
    ensures !Contains(RecordName(nodeid), FileMarker)
  {
    var kept := Without(Split(nodeid, Separator), FileMarker);
    forall p | p in kept
      ensures !Contains(p, FileMarker)
    {
      WithoutMembers(Split(nodeid, Separator), FileMarker, p);
    }
    assert forall c | c in FileMarker :: c !in Separator;
    JoinAvoids(kept, Separator, FileMarker);
  }

  /** A node id none of whose parts names a Python file comes through unchanged. */
  lemma RecordNameUnchanged(nodeid: string)
    requires forall p | p in Split(nodeid, Separator) :: !Contains(p, FileMarker)
    ensures RecordName(nodeid) == nodeid
  {
    WithoutNothing(Split(nodeid, Separator), FileMarker);
    JoinSplit(nodeid, Separator);
  }

  /** The names taken from a list of records, in record order, before sorting. */
  function Names(records: seq<Record>): seq<string> {
    if records == [] then []
    else (match records[0] case Some(id) => [RecordName(id)] case None => []) + Names(records[1..])
  }

  /** Names are taken record by record: the list of a concatenation is the concatenation of the lists. */
  lemma {:induction false} NamesAppend(a: seq<Record>, b: seq<Record>)
    ensures Names(a + b) == Names(a) + Names(b)
  {
    if a == [] {
      assert a + b == b;
    } else {
      assert (a + b)[0] == a[0];
      assert (a + b)[1..] == a[1..] + b;
      NamesAppend(a[1..], b);
    }
  }

  /** There is one name per record that has a node id: records without one are skipped. */
  lemma {:induction false} NamesCount(records: seq<Record>)
    ensures |Names(records)| == |records| - multiset(records)[None]
  {
    if records != [] {
      NamesCount(records[1..]);
      assert records == [records[0]] + records[1..];
      assert multiset(records) == multiset{records[0]} + multiset(records[1..]);
    }
  }

  /** A name is in the list exactly when it is the record name of some record's node id. */
  lemma {:induction false} NamesMembers(records: seq<Record>, name: string)
    ensures name in Names(records) <==> exists id :: Some(id) in records && RecordName(id) == name
  {
    if records != [] {
      NamesMembers(records[1..], name);
      assert records == [records[0]] + records[1..];
      if name in Names(records) && records[0].Some? && RecordName(records[0].value) == name {
        assert Some(records[0].value) in records;
      }
      forall id | Some(id) in records && RecordName(id) == name
        ensures name in Names(records)
      {
        if records[0] != Some(id) {
          assert Some(id) in records[1..];
        }
      }
    }
  }

  /** `stats.get(key, [])`. */
  function Group(stats: map<string, StatsGroup>, key: string): StatsGroup {
    if key in stats then stats[key] else Records([])
  }

  /** The report entry for a key whose stats value is a list: its record names, sorted. */
  function Entry(stats: map<string, StatsGroup>, key: string): (entry: Value)
    requires Group(stats, key).Records?
    ensures entry.List? && Sorted(entry.items)
    ensures multiset(entry.items) == multiset(Names(Group(stats, key).records))
  {
    List(Sort(Names(Group(stats, key).records)))
  }

  /** The report after the first `n` report keys have been visited. */
  function ReportUpTo(stats: map<string, StatsGroup>, date: string, n: nat): Dict
    requires n <= |ReportKeys|
  {
    if n == 0 then map["date" := Str(date)]
    else
      var report := ReportUpTo(stats, date, n - 1);
      var key := ReportKeys[n - 1];
      if Group(stats, key).Records? then report[key := Entry(stats, key)] else report
  }

  /** The report keys are three different keys, none of them `date`. */
  lemma ReportKeysDistinct()
    ensures forall i, j | 0 <= i < j < |ReportKeys| :: ReportKeys[i] != ReportKeys[j]
    ensures "date" !in ReportKeys
  {
    assert ReportKeys[0][0] == 'p' && ReportKeys[1][0] == 'f' && ReportKeys[2][0] == 's';
    assert |"date"| == 4 && |ReportKeys[0]| == 6 && |ReportKeys[1]| == 6 && |ReportKeys[2]| == 7;
  }

  /** What the report holds after the first `n` report keys have been visited. */
  lemma {:induction false} ReportUpToContents(stats: map<string, StatsGroup>, date: string, n: nat)
    requires n <= |ReportKeys|
    ensures var report := ReportUpTo(stats, date, n);
      && "date" in report && report["date"] == Str(date)
      && (forall k | k in report :: k == "date" || k in ReportKeys[..n])
      && (forall k | k in ReportKeys[..n] :: k in report <==> Group(stats, k).Records?)
      && (forall k | k in ReportKeys[..n] && k in report :: report[k] == Entry(stats, k))
  {
    ReportKeysDistinct();
    if n > 0 {
      ReportUpToContents(stats, date, n - 1);
      assert ReportKeys[..n] == ReportKeys[..n - 1] + [ReportKeys[n - 1]];
      assert ReportKeys[n - 1] !in ReportKeys[..n - 1];
    }
  }

  /**
   * The report `_prepare_report` returns for `stats` when the clock reads
   * `date`: the date, and for each report key whose stats value is a list (a
   * missing key counts as an empty list) the sorted names of its records.
   */
  function ReportOf(stats: map<string, StatsGroup>, date: string): (report: Dict)
    ensures "date" in report && report["date"] == Str(date)
    ensures forall k | k in report :: k == "date" || k in ReportKeys
    ensures forall k | k in ReportKeys && k !in stats :: k in report && report[k] == List([])
    ensures forall k | k in ReportKeys && k in stats && stats[k].NotAList? :: k !in report
    ensures forall k | k in ReportKeys && k in stats && stats[k].Records? :: k in report
    ensures forall k | k in ReportKeys && k in report ::
      report[k].List?
      && Sorted(report[k].items)
      && multiset(report[k].items) == multiset(Names(Group(stats, k).records))
  {
    ReportUpToContents(stats, date, |ReportKeys|);
    assert ReportKeys[..|ReportKeys|] == ReportKeys;
    ReportUpTo(stats, date, |ReportKeys|)
  }

  /** The inner loop of `_prepare_report`: appends the name of each record that has a node id. */
  method CollectNames(records: seq<Record>) returns (names: seq<string>)
    ensures names == Names(records)
  {
    names := [];
    for j := 0 to |records|
      invariant names == Names(records[..j])
    {
      var record := records[j];
      NamesAppend(records[..j], [record]);
      assert records[..j + 1] == records[..j] + [record];
      if record.Some? {
        names := names + [RecordName(record.value)];
      }
    }
    assert records[..|records|] == records;
  }

  /** `_prepare_report(stats)` with the clock reading `date`. */
  method PrepareReport(stats: map<string, StatsGroup>, date: string) returns (report: Dict)
    ensures report == ReportOf(stats, date)
  {
    report := map["date" := Str(date)];
    for i := 0 to |ReportKeys|
      invariant report == ReportUpTo(stats, date, i)
    {
      var key := ReportKeys[i];
      var group := Group(stats, key);
      if group.Records? {
        var names := CollectNames(group.records);
        report := report[key := List(Sort(names))];
      }
    }
  }
}
