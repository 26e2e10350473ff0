/** Worked examples of the report, summary and trend rules on concrete values. */
module Examples {
  import opened Wrappers
  import opened Strings
  import opened Report
  import opened Summary
  import opened Trend

  /** Splitting `a + "::" + b`, where `a` holds no colon, cuts right after `a`. */
  lemma {:induction false} SplitAfterPlainPart(a: string, b: string)
    requires ':' !in a
    ensures Split(a + Separator + b, Separator) == [a] + Split(b, Separator)
  {
    var s := a + Separator + b;
    if a == [] {
      assert s[..2] == Separator && s[2..] == b;
    } else {
      assert s[..2] != Separator by {
        assert s[0] == a[0] && a[0] in a;
      }
      assert s[1..] == a[1..] + Separator + b;
      assert forall c | c in a[1..] :: c in a;
      SplitAfterPlainPart(a[1..], b);
      assert a == [a[0]] + a[1..];
    }
  }

  /** A string with no colon is a single part. */
  lemma {:induction false} SplitPlain(a: string)
    requires ':' !in a
    ensures Split(a, Separator) == [a]
  {
    if |a| >= 2 {
      assert a[..2] != Separator by {
        assert a[0] in a;
      }
      assert forall c | c in a[1..] :: c in a;
      SplitPlain(a[1..]);
      assert a == [a[0]] + a[1..];
    }
  }

  /** A leading file part is dropped and the rest of the node id is handled as if it stood alone. */
  lemma RecordNameSkipsFilePart(file: string, rest: string)
    requires ':' !in file && Contains(file, FileMarker)
    ensures RecordName(file + Separator + rest) == RecordName(rest)
  {
    SplitAfterPlainPart(file, rest);
    var tail := Split(rest, Separator);
    var parts := [file] + tail;
    assert parts[0] == file && parts[1..] == tail;
    assert Without(parts, FileMarker) == Without(tail, FileMarker);
  }

  /** `file::Class::test` becomes `Class::test` when only `file` names a Python file. */
  lemma RecordNameOfClassTest(file: string, cls: string, test: string)
    requires ':' !in file && ':' !in cls && ':' !in test
    requires Contains(file, FileMarker) && !Contains(cls, FileMarker) && !Contains(test, FileMarker)
    ensures RecordName(file + Separator + cls + Separator + test) == cls + Separator + test
  {
    var rest := cls + Separator + test;
    assert file + Separator + cls + Separator + test == file + Separator + rest;
    RecordNameSkipsFilePart(file, rest);
    SplitAfterPlainPart(cls, test);
    SplitPlain(test);
    assert Split(rest, Separator) == [cls, test];
    RecordNameUnchanged(rest);
  }

  /** `file::test` becomes `test` when `file` names a Python file. */
  lemma RecordNameOfPlainTest(file: string, test: string)
    requires ':' !in file && ':' !in test
    requires Contains(file, FileMarker) && !Contains(test, FileMarker)
    ensures RecordName(file + Separator + test) == test
  {
    RecordNameSkipsFilePart(file, test);
    SplitPlain(test);
    RecordNameUnchanged(test);
  }

  /** A summary with the three counts and a date. */
  function Counts(date: string, passed: int, failed: int, skipped: int): Dict {
    map["date" := Str(date), "passed" := Int(passed), "failed" := Int(failed), "skipped" := Int(skipped)]
  }

  /** Two passed, no failed and one skipped test give the counts 2, 0 and 1. */
  lemma SummaryOfExampleReport(d: string, now: string, a: string, b: string, c: string)
    ensures var report := map["date" := Str(d), "passed" := List([a, b]), "failed" := List([]), "skipped" := List([c])];
      SummaryOf(report, now) == Counts(d, 2, 0, 1)
  {
  }

  /** Below two entries the trend always grows. */
  lemma TrendGrowsWhenShort(s1: Dict, s2: Dict)
    ensures Updated([], s1) == [s1]
    ensures Updated([s1], s2) == [s1, s2]
  {
  }

  /** A run with the same counts as the last one only refreshes its date. */
  lemma TrendReplacesUnchangedRun(d1: string, d2: string, d3: string)
    ensures Updated([Counts(d1, 5, 1, 0), Counts(d2, 6, 1, 0)], Counts(d3, 6, 1, 0))
      == [Counts(d1, 5, 1, 0), Counts(d3, 6, 1, 0)]
  {
  }

  /** A run whose failed count changed becomes a new trend point. */
  lemma TrendAppendsChangedRun(d1: string, d2: string, d3: string)
    ensures Updated([Counts(d1, 5, 1, 0), Counts(d2, 6, 1, 0)], Counts(d3, 6, 2, 0))
      == [Counts(d1, 5, 1, 0), Counts(d2, 6, 1, 0), Counts(d3, 6, 2, 0)]
  {
    var last, summary := Counts(d2, 6, 1, 0), Counts(d3, 6, 2, 0);
    assert last["failed"] != summary["failed"];
    assert ValuesDiffer(last, summary);
  }
}
