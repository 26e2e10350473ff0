# Test-result report and trend recorder (pytest plugin), modelled in Dafny

The backend scoreboard runs the ONNX backend test suite under pytest. Its
plugin (`test/conftest.py`) then turns pytest's end-of-run statistics into
three things:

- a **report**: for each of `passed`, `failed` and `skipped`, the sorted
  names of the tests in that category, plus a date;
- a **summary**: how many names each list of the report holds, plus the date;
- a **trend**: a list of summaries kept across runs. A new summary is
  appended, or it replaces the last entry when the trend already holds two
  or more entries, the key count is the same, and no value other than the
  date changed.

This project models those three transformations and proves what they
guarantee. The modules are:

- `Strings` (`strings.dfy`) models the Python string operations the report
  builder uses: `sub in s`, `s.split(sep)`, `sep.join(parts)` and the
  `filter` over the parts.
- `Ordering` (`ordering.dfy`) models Python's `str` ordering (lexicographic
  by code point) and `list.sort()`. The sort is an insertion sort. It is
  proved sorted and a permutation, and a sorted permutation is proved unique,
  so this sort gives the same list as the sort Python uses.
- `Report` (`report.dfy`) models the record name built from a pytest node
  id, the report as a function (`ReportOf`), and `_prepare_report` as a method
  with the source's two nested loops (`PrepareReport`, `CollectNames`).
- `Summary` (`summary.dfy`) models `_prepare_summary` as a function and as a
  loop over the report's keys, and proves what the summary of a report counts.
- `Trend` (`trend.dfy`) models the append-or-replace rule as a function
  (`Updated`). `_update_trend` is a method that changes a list object in
  place (`UpdateTrend` on a `TrendList`). The `any(...)` test is a loop that
  stops early (`AnyValueDiffers`). A lemma proves that the update keeps the
  trend collapsed: from the third entry on, each entry changed something
  relative to the one before it.
- `Examples` (`examples.dfy`) holds worked examples: node ids of the shapes
  `file.py::Class::test` and `file.py::test`, a summary of 2/0/1 tests, and
  four trend updates.

The date is a parameter (`date` for the report, `now` for the summary's
fallback). The model never reads a clock.

Four points where the code's behaviour is easy to misread:

- A report key that is absent from the stats gets an empty list in the
  report, because the code uses `stats.get(key, [])`.
- Only a stats value that is present but is not a list is left out of the
  report.
- The first two summaries are always appended to the trend, so they can hold
  equal counts. Only from the third entry on does each entry differ from the
  one before it. `Trend.Collapsed` states this property.
- Each report list is sorted, but duplicate names are kept: the code never
  removes duplicates.

## Model

| member | source | states |
|---|---|---|
| `Strings.JoinSplit` | test/conftest.py:61-63 | joining the pieces of `s.split(sep)` with `sep` gives back `s` exactly |
| `Strings.SplitPiecesAvoidSeparator` | test/conftest.py:61 | no piece of `s.split(sep)` contains `sep` |
| `Strings.WithoutMembers` | test/conftest.py:62 | a part survives the filter exactly when it is a part and does not contain the marker (both directions) |
| `Strings.WithoutAppend` | test/conftest.py:62 | the filter keeps the original order: filtering a concatenation is concatenating the filtered halves |
| `Strings.WithoutNothing` | test/conftest.py:62 | when no part contains the marker, the filter returns the parts unchanged |
| `Strings.JoinAvoids` | test/conftest.py:63 | if no part contains `sub` and `sub` shares no character with the separator, then the join does not contain `sub` |
| `Strings.NotContainsAround` | test/conftest.py:63 | `sub` cannot occur across a separator with which it shares no character |
| `Strings.Contains` | test/conftest.py:62 | Python's `sub in s`: `sub` occurs at some position of `s` |
| `Strings.Split` | test/conftest.py:61 | Python's `s.split(sep)`: the pieces between the leftmost non-overlapping occurrences of `sep`; there is always at least one piece |
| `Strings.Join` | test/conftest.py:63 | Python's `sep.join(parts)`: the parts with `sep` between neighbours |
| `Strings.Without` | test/conftest.py:62 | `filter(lambda x: marker not in x, parts)`: the parts without the marker, in order, never more than the input |
| `Ordering.LessEq` | test/conftest.py:65 | Python's `str <=`: lexicographic comparison by code point, a prefix ordering first |
| `Ordering.LessEqTotal` | test/conftest.py:65 | any two strings are comparable under Python's string order |
| `Ordering.LessEqTransitive` | test/conftest.py:65 | Python's string order is transitive |
| `Ordering.LessEqAntisymmetric` | test/conftest.py:65 | two strings that are each `<=` the other are equal |
| `Ordering.Insert` | test/conftest.py:65 | inserting into a sorted list gives a sorted list with one more copy of the element |
| `Ordering.Sort` | test/conftest.py:65 | `list.sort()` returns an ascending list with the same elements, counted with multiplicity |
| `Ordering.SortedUnique` | test/conftest.py:65 | two ascending lists with the same elements are equal, so every correct sort agrees with `Sort` |
| `Report.RecordName` | test/conftest.py:60-63 | the node id split at `::`, with every part containing `.py` dropped, joined back with `::` |
| `Report.Names` | test/conftest.py:58-64 | the record names of the records that have a node id, in record order |
| `Report.Group` | test/conftest.py:55 | `stats.get(key, [])`: the stats value for the key, or an empty list when the key is absent |
| `Report.RecordNameHasNoFileMarker` | test/conftest.py:60-63 | a record name never contains `.py`, in a kept part or across a `::` |
| `Report.RecordNameUnchanged` | test/conftest.py:60-63 | a node id none of whose `::`-parts contains `.py` is its own record name |
| `Report.NamesAppend` | test/conftest.py:58-64 | names are taken record by record and in record order |
| `Report.NamesCount` | test/conftest.py:58-64 | there is one name for each record that has a node id; records without one are skipped |
| `Report.NamesMembers` | test/conftest.py:58-64 | a string is among the names exactly when it is the record name of some record's node id |
| `Report.Entry` | test/conftest.py:57-65 | a listed category's entry is an ascending permutation of its records' names |
| `Report.ReportKeysDistinct` | test/conftest.py:8 | `passed`, `failed` and `skipped` are three different keys, and none of them is `date` |
| `Report.ReportUpToContents` | test/conftest.py:53-65 | after the first n report keys, the report holds `date` plus exactly those of the n keys whose stats value is a list, each with its entry |
| `Report.ReportOf` | test/conftest.py:53-66 | the report always has `date`; its other keys come from `passed`/`failed`/`skipped`; a missing category gives `[]`; a non-list one gives no key; every list is sorted and a permutation of its records' names |
| `Report.CollectNames` | test/conftest.py:58-64 | the inner loop collects exactly the names of the records that have a node id, in order |
| `Report.PrepareReport` | test/conftest.py:42-66 | the two nested loops build exactly the report `ReportOf` describes |
| `Summary.SummaryOf` | test/conftest.py:77-82 | the summary's keys are `date` plus the report's list-valued keys; each maps to its list's length; `date` is the report's date, or `now` if the report has none |
| `Summary.PrepareSummary` | test/conftest.py:69-82 | the loop over the report's keys builds exactly `SummaryOf` |
| `Summary.SummaryOfReportKeys` | test/conftest.py:53-81 | the summary of a report has `date` set to the report's date and, besides it, exactly one key per report key whose stats value is a list |
| `Summary.SummaryOfReportCounts` | test/conftest.py:55-80 | for such a key, the summary counts the records that have a node id |
| `Trend.ValuesDiffer` | test/conftest.py:151-155 | some non-`date` key of the summary is missing from the last entry or holds a different value there |
| `Trend.Changed` | test/conftest.py:150-155 | the summary has a different number of keys than the last entry, or some value differs |
| `Trend.Appends` | test/conftest.py:148-156 | the trend has fewer than two entries, or the summary changed relative to the last entry |
| `Trend.TrendList.constructor` | test/conftest.py:157-159 | the list object that `_update_trend` appends to or whose last entry it replaces, holding exactly the given entries |
| `Trend.Updated` | test/conftest.py:148-160 | the trend grows by one exactly when the append condition holds, and otherwise keeps its length; the last entry is the summary; all but the old last entry are unchanged; below two entries it always appends; with equal key count and values it never grows |
| `Trend.AnyValueDiffers` | test/conftest.py:151-155 | the early-exit loop answers whether some non-`date` key of the summary is missing from the last entry or holds a different value there |
| `Trend.UpdateTrend` | test/conftest.py:134-160 | the list object is changed in place to exactly `Updated(old entries, summary)` |
| `Trend.UnchangedIsInterchangeable` | test/conftest.py:150-155 | a dated summary that is no new point after a dated entry is a new point after any earlier entry exactly when that entry is |
| `Trend.UpdatedKeepsCollapsed` | test/conftest.py:148-159 | updating a dated, collapsed trend with a dated summary keeps it dated and collapsed |
| `Examples.SplitAfterPlainPart` | test/conftest.py:61 | splitting `a::b` where `a` has no colon gives `a`, then the split of `b` |
| `Examples.SplitPlain` | test/conftest.py:61 | a string without a colon splits into itself alone |
| `Examples.RecordNameSkipsFilePart` | test/conftest.py:60-63 | a leading colon-free part containing `.py` is dropped, and the rest of the id is named on its own |
| `Examples.RecordNameOfClassTest` | test/conftest.py:60-63 | `file.py::Class::test` is named `Class::test` |
| `Examples.RecordNameOfPlainTest` | test/conftest.py:60-63 | `file.py::test` is named `test` |
| `Examples.SummaryOfExampleReport` | test/conftest.py:77-81 | a report with 2 passed, 0 failed and 1 skipped names has the summary counts 2, 0 and 1 and the report's date |
| `Examples.TrendGrowsWhenShort` | test/conftest.py:148-157 | `[]` becomes `[S]`, and `[S]` becomes `[S, S2]` |
| `Examples.TrendReplacesUnchangedRun` | test/conftest.py:148-159 | `[S1, S2]` with a summary equal to `S2` except for the date becomes `[S1, S3]` |
| `Examples.TrendAppendsChangedRun` | test/conftest.py:148-157 | `[S1, S2]` with a summary whose `failed` count differs becomes `[S1, S2, S3]` |

## Left out

- `pytest_addoption` and `pytest_configure` register the `--onnx_backend` option and store the choice in a process-wide variable. This is host-framework glue, so it is not modelled.
- `pytest_terminal_summary` is not modelled. It reads `RESULTS_DIR` or the working directory and chains the steps with file I/O around them. Its steps are modelled one by one: the report by `Report.PrepareReport`, the report-to-summary link by `Summary.SummaryOfReportKeys` and `Summary.SummaryOfReportCounts`, and the trend step by `Trend.Updated` and `Trend.UpdateTrend`.
- `_save_report`, `_save_trend` and `_load_trend` do file I/O and JSON serialisation, so they are not modelled. This includes the fallback to an empty trend when a read or a JSON parse fails.
- `datetime.now().strftime(...)` is a clock read. The date string is a parameter instead.
- Values from a trend file that are JSON `null`, booleans, floats or nested objects are not modelled. A boolean would matter: Python's `True == 1` makes a stored `true` compare equal to a count of 1. Entries that are not dictionaries are not modelled either. `Value` has only lists of strings, integers and strings.
- `hasattr(record, "nodeid")` on an arbitrary object is modelled as a record that has or lacks a node id (`Option<string>`).
- `Trend.UpdateTrend` does not capture aliasing. After `trend[-1] = summary` or `trend.append(summary)`, Python stores the same dictionary object, so later changes to `summary` would show in the trend. Here dictionaries are values. The method also returns nothing, whereas Python returns the same list object it changed.
- `Ordering.Sort` is written as an insertion sort, not Timsort. `Ordering.SortedUnique` shows that the result is the same.
- `Report.PrepareReport` collects the names of a category in a local list and stores it sorted. Python appends to `report[key]` and sorts that list in place. The resulting dictionary is the same.
- Python dictionary key order is not modelled. It does not affect any of the three results.
- `Examples.RecordNameOfClassTest` and `Examples.RecordNameOfPlainTest` hold for every file, class and test name of their shapes. No lemma is stated about a concrete literal node id.
