# H-1B counting: a verified model

`src/h1b_counting.py` reads a semicolon-separated file of H-1B visa applications. It writes two
reports: the ten occupations and the ten work states with the most certified applications. Each
report row gives the number of certified applications and their percentage of all certified ones.

This project models the part of the program that works on data in memory:

- **`query_load`** (module `QueryEngine`): filter, project, then sort, either by a key tuple or by a
  comparator with a direction per key. The sort is an insertion sort. It is proved to be a
  permutation that is sorted and stable. It is also proved to be the only sorted, stable
  rearrangement, so it gives exactly what Python's `sorted` gives.
- **`percentage`** (module `Aggregate`): computed in integer tenths of a percent, with a zero
  denominator refused.
- **The reconciliation loops** (module `Reconcile`): when one role is spread over several columns,
  these rewrite each record's primary column in place. They are methods over an `array` of records.
- **Grouping and ranking** (modules `Grouping`, `Aggregate`, `Reports`, `Counting`):
  - `Reports` specifies each report as a function and proves what it means:
    - one row per certified label;
    - each row's count is the number of certified input records with that label;
    - the counts add up to the certified total;
    - rows are ordered by count descending, then label ascending;
    - the report is the top `count` of that order.
  - `Counting` holds `get_top_occupations` and `get_top_states` as methods that reconcile the array
    and then build the report. Each method is proved to return the specified report.
- **Column-role resolution in `main`** (modules `Resolution` and `Patterns`):
  - Each role has a static alias table, and a regular expression used only when the table matches
    no header.
  - The five regular expressions are one matcher over the pieces `.*`, a group of alternatives,
    and `$`. It is proved to accept exactly the headers a non-backtracking description accepts.
- **`main`** once the data is loaded (module `Pipeline`): resolve the roles, then build both
  reports in order on the same array.

Data model:

- A record is a `map<string, Value>`, where a `Value` is a string or an integer.
- Python's `None` (a missing cell in a short CSV row) is modelled as the empty string. The program
  treats `None` and `''` alike everywhere.
- Strings compare lexicographically by character (`Strings.Compare`), as Python's `<` does on `str`.
- A number sorts before a string. The program never compares a number with a string: every count
  cell is a number and every label cell a string.

## Model

| member | source | states |
|---|---|---|
| Sequences.Keep | src/h1b_counting.py:86 | exactly the elements the predicate accepts, each as often as in the input |
| Sequences.KeepIsSubsequence | src/h1b_counting.py:86 | the kept elements keep their input order |
| Sequences.KeepDistinct | src/h1b_counting.py:271-287 | selecting from a list with no repeated element gives a list with no repeated element |
| Strings.Compare | src/h1b_counting.py:105-106 | a three-way comparison of strings |
| Strings.CompareZero | src/h1b_counting.py:105-106 | string comparison gives 0 exactly on equal strings |
| Strings.CompareAntisymmetric | src/h1b_counting.py:105-106 | swapping the operands negates the string comparison |
| Strings.CompareTransitive | src/h1b_counting.py:105-106 | string order is transitive |
| Strings.StripStart | src/h1b_counting.py:95 | a suffix of the input; everything dropped is white space; the rest does not start with white space |
| Strings.StripEnd | src/h1b_counting.py:95 | a prefix of the input; everything dropped is white space; the rest does not end with white space |
| Strings.Strip | src/h1b_counting.py:95 | `col.strip()`: no longer than the input, and neither starts nor ends with white space |
| Strings.StripIsInfix | src/h1b_counting.py:95 | the stripped name is a slice of the input with only white space on either side |
| Strings.StripUnchanged | src/h1b_counting.py:95 | a name with no white space at either end is left as it is |
| Strings.StripIdempotent | src/h1b_counting.py:95 | stripping twice is stripping once |
| Records.CompareValues | src/h1b_counting.py:105-106 | `cmp(a, b)`: a three-way comparison of cell values |
| Records.CompareValuesZero | src/h1b_counting.py:105-106 | a comparison gives 0 exactly on equal values |
| Records.CompareValuesAntisymmetric | src/h1b_counting.py:105-106 | swapping the operands negates the comparison |
| Records.CompareValuesTransitive | src/h1b_counting.py:105-106 | the value order is transitive |
| QueryEngine.CompareBy | src/h1b_counting.py:98-103 | the comparator's result is -1, 0 or 1 |
| QueryEngine.CompareByZero | src/h1b_counting.py:98-103 | the comparator gives 0 exactly when the records agree on every sort column |
| QueryEngine.CompareByAntisymmetric | src/h1b_counting.py:98-103 | swapping the records negates the comparator |
| QueryEngine.CompareByTransitive | src/h1b_counting.py:98-103 | the comparator's order is transitive, so `sorted` has a total preorder to work with |
| QueryEngine.SameKeysTransitive | src/h1b_counting.py:98-103 | records the comparator ties compare alike with any third record |
| QueryEngine.Ties | src/h1b_counting.py:108 | the records tied with a given one form a sub-list of the input, in input order |
| QueryEngine.TiesMembers | src/h1b_counting.py:108 | every record in a tie class is in the list and ties with the given record |
| QueryEngine.Insert | src/h1b_counting.py:108 | inserting adds the one record and keeps the rest |
| QueryEngine.Sort | src/h1b_counting.py:108 | the sorted list is a permutation of the input |
| QueryEngine.SortSorted | src/h1b_counting.py:108 | the sorted list is in comparator order |
| QueryEngine.InsertSorted | src/h1b_counting.py:108 | inserting into a sorted list keeps it sorted |
| QueryEngine.SortStable | src/h1b_counting.py:108 | records that tie on every key keep their input order |
| QueryEngine.SortUnique | src/h1b_counting.py:108 | any sorted, stable rearrangement of the input is this sort's result, so it is what Python's stable `sorted` returns |
| QueryEngine.SortedTiesDetermine | src/h1b_counting.py:108 | two sorted lists with the same tie classes, each in the same order, are equal |
| QueryEngine.Select | src/h1b_counting.py:86 | in input order, exactly the records the filter accepts; all of them without a filter |
| QueryEngine.Selected | src/h1b_counting.py:85-89 | one record per selected record; each keeps only cells of the selected record, with their values, and every projected column the selected record has |
| QueryEngine.Project | src/h1b_counting.py:89 | the record restricted to the projected columns, values unchanged |
| QueryEngine.ProjectAll | src/h1b_counting.py:89 | order and length kept; each record keeps exactly its cells whose column is projected, with their values |
| QueryEngine.SelectedSpec | src/h1b_counting.py:85-89 | in input order, exactly the records the filter accepts, each as often as in the input, then projected |
| QueryEngine.KeyTuple | src/h1b_counting.py:112 | the key list `[r[k] for k in sort_keys]`: one cell per sort column |
| QueryEngine.KeyTupleOrder | src/h1b_counting.py:112 | without directions, the comparator orders two records exactly as Python compares their key lists |
| QueryEngine.ColumnResults | src/h1b_counting.py:95-100 | one signed comparison per sort column, negated for `'Descending'` |
| QueryEngine.DirectedOrder | src/h1b_counting.py:95-103 | with directions, the comparator gives the first non-zero per-column result of lines 98-103, and 0 when there is none |
| QueryEngine.KeysOfTwo | src/h1b_counting.py:95-96 | two unpadded column names with their two directions |
| QueryEngine.CompareByTwo | src/h1b_counting.py:98-103 | with a descending first column and an ascending second, a record sorts no later than another exactly when its first cell is larger, or equal with a second cell not larger |
| QueryEngine.Query | src/h1b_counting.py:68-116 | fails exactly on a direction list of the wrong length (lines 109-110) or on a missing sort column; without sort keys it gives the selection in input order; otherwise a sorted, stable permutation of the selection |
| Aggregate.Headers | src/h1b_counting.py:195 | the three report columns: label, count, percentage, all distinct |
| Aggregate.Percentage | src/h1b_counting.py:118-136 | fails exactly when the denominator is 0; otherwise the nearest tenth of `100 * part / whole` |
| Aggregate.PercentageUnique | src/h1b_counting.py:133 | only one tenth satisfies the rounding condition |
| Aggregate.PercentageBounds | src/h1b_counting.py:133 | a part of the whole lies between 0 % and 100 %, and the whole is exactly 100 % |
| Aggregate.Row | src/h1b_counting.py:191 | a report row has exactly the label, count and percentage columns |
| Aggregate.Groups | src/h1b_counting.py:187-191 | no more rows than records, none exactly when there are no records, and each row has exactly the label, count and percentage columns |
| Aggregate.Group | src/h1b_counting.py:187-191 | the `groupby` loop produces the rows `Groups` specifies: one per run of equal labels |
| Aggregate.RunEnd | src/h1b_counting.py:188-189 | the end of the maximal run of records sharing a label |
| Aggregate.RunStep | src/h1b_counting.py:188-189 | a maximal run is the first group of the rest of the list |
| Aggregate.LeadingIs | src/h1b_counting.py:188-189 | the length of a leading run is set by the run condition alone |
| Aggregate.SumConcat | src/h1b_counting.py:190 | a sum over a concatenation is the sum of the two sums |
| Aggregate.SumSort | src/h1b_counting.py:193-194 | sorting leaves every sum over the list unchanged |
| Aggregate.SumInsert | src/h1b_counting.py:193-194 | inserting a record adds its term to the sum |
| Aggregate.SumTwo | src/h1b_counting.py:190 | two terms of a non-negative sum add up to no more than the sum |
| Grouping.Labels | src/h1b_counting.py:188 | the group key `x[label]` of every record, in order |
| Grouping.Leading | src/h1b_counting.py:188-189 | the length of the maximal leading run of one label |
| Grouping.Runs | src/h1b_counting.py:188-191 | one (label, length) pair per run; each length at least 1; empty exactly for empty input |
| Grouping.Count | src/h1b_counting.py:189 | the number of occurrences of a label |
| Grouping.CountConcat | src/h1b_counting.py:189 | occurrences are additive over concatenation |
| Grouping.RunsTotal | src/h1b_counting.py:189-190 | the run lengths add up to the length of the list |
| Grouping.RunsCount | src/h1b_counting.py:189 | in a list sorted by label, each run's length is the number of occurrences of its label |
| Grouping.RunsIncreasing | src/h1b_counting.py:188 | in a list sorted by label, the runs' labels strictly increase, so no label has two runs |
| Grouping.RunsCover | src/h1b_counting.py:188 | every label of the list has a run |
| Reconcile.Coalesce | src/h1b_counting.py:163-165 | the first non-empty cell scanning the listed columns left to right, or the last column's cell when all are empty |
| Reconcile.Reconciled | src/h1b_counting.py:161-171 | the primary column holds `Coalesce`; no other column changes, and no column is added |
| Reconcile.CoalesceSnoc | src/h1b_counting.py:163-165 | one more pass of the inner loop keeps a non-empty result, or takes the next column |
| Reconcile.ReconciledIdempotent | src/h1b_counting.py:298-299 | reconciling twice, as the two report functions do, is reconciling once |
| Reconcile.ReconcileColumn | src/h1b_counting.py:161-171 | the loop of one role (also lines 222-238): every record becomes its `Reconciled` form; every record is rewritten from itself alone |
| Reconcile.ReconcileRecord | src/h1b_counting.py:163-165 | the inner loop on one record in place: that record becomes its `Reconciled` form and no other record changes |
| Reconcile.OccupationSteps | src/h1b_counting.py:173-180 | the occupation loop run for `i = 1 .. n-1` on one record keeps its columns; each step reads code and name before writing either |
| Reconcile.FirstFilled | src/h1b_counting.py:176-178 | the first secondary index with a non-empty code, or the last index when there is none |
| Reconcile.OccupationStepsFill | src/h1b_counting.py:173-180 | with an empty primary code, the first `n` steps take code and name from the first filled index below `n` |
| Reconcile.OccupationStepsMeaning | src/h1b_counting.py:173-180 | the whole occupation loop copies code and name from the same index: the first whose code is non-empty |
| Reconcile.OccupationFilled | src/h1b_counting.py:173-180 | columns kept, other columns unchanged; a filled primary code leaves the record as it is; an empty one takes code and name from the same index, the first with a code, or the last |
| Reconcile.OccupationReconciled | src/h1b_counting.py:173-180 | the occupation loop on one record keeps its columns, and with unshared primaries it is `OccupationFilled` |
| Reconcile.ReadBeforeWrite | src/h1b_counting.py:177-180 | when a name column is the primary code column, the name copied is the cell read before the code was written |
| Reconcile.ReconcileOccupation | src/h1b_counting.py:173-180 | every record becomes its `OccupationReconciled` form, and (with unshared primaries) its `OccupationFilled` form |
| Reports.Take | src/h1b_counting.py:195 | Python's `s[:count]`: a prefix of `count` elements, of all of them when shorter, and `len + count` for a negative `count` |
| Reports.Accepts | src/h1b_counting.py:182-184 | a record the filter accepts has the status column and every required column |
| Reports.Ranked | src/h1b_counting.py:182-194 | the ranking has no more rows than the input has records |
| Reports.Report | src/h1b_counting.py:182-195 | at most `count` rows, and no more than the input has records |
| Reports.RowCells | src/h1b_counting.py:191 | a row holds its label, its count and its percentage of the whole |
| Reports.RankKeysAre | src/h1b_counting.py:193-194 | the ranking sorts by count descending, then label ascending |
| Reports.GroupKeysAre | src/h1b_counting.py:185 | the first sort is by the label column, ascending |
| Reports.HeadersStripped | src/h1b_counting.py:95 | the report's column names carry no white space for `strip` to remove |
| Reports.CertifiedHaveLabel | src/h1b_counting.py:182-185 | every certified, projected record has its label column |
| Reports.SortedCertified | src/h1b_counting.py:182-185 | every record of the first query's result has the label column |
| Reports.RankedUnfold | src/h1b_counting.py:182-194 | both `query_load` calls of a report succeed, each as the stable sort of its input |
| Reports.SumCertified | src/h1b_counting.py:182-185 | counting the projected certified records by label is counting the certified input records |
| Reports.NumberCertifiedSum | src/h1b_counting.py:190 | the number of certified records is the sum of their indicator |
| Reports.LabelsTally | src/h1b_counting.py:189 | a label's occurrences are the records whose label cell holds it |
| Reports.SortedLabels | src/h1b_counting.py:185 | the first query leaves the labels in non-decreasing order, the precondition `groupby` needs |
| Reports.GroupRowsFacts | src/h1b_counting.py:187-191 | before ranking there is one row per label, in strictly increasing label order, each with its label's count |
| Reports.RankedRows | src/h1b_counting.py:187-194 | every ranked row is the row of one label: the number of certified input records with it and its percentage of all certified records |
| Reports.RankedDistinct | src/h1b_counting.py:187-194 | no label has two rows |
| Reports.CompareByRank | src/h1b_counting.py:193-194 | a row ranks no later than another exactly when its count is larger, or equal with a label not larger |
| Reports.RankedOrder | src/h1b_counting.py:193-194 | the ranking is by count descending, ties broken by label ascending |
| Reports.RowsTotal | src/h1b_counting.py:189-191 | the count cells of the rows add up to the run lengths |
| Reports.RankedTotal | src/h1b_counting.py:189-194 | the counts of the ranking add up to the number of certified records |
| Reports.RankedCoverage | src/h1b_counting.py:187-194 | every label of a certified input record has a row |
| Reports.RankedEmpty | src/h1b_counting.py:182-194 | the ranking is empty exactly when no input record is certified |
| Reports.NoneCertified | src/h1b_counting.py:182-194 | with no certified record, the ranking succeeds and is empty |
| Reports.ReportIsTop | src/h1b_counting.py:193-195 | the report is the head of the ranking: `count` rows or all of them when fewer, and no row left out ranks before a row kept |
| Counting.TopGroups | src/h1b_counting.py:182-195 | the two queries and the grouping loop return the headers and the specified report |
| Counting.ColumnsKept | src/h1b_counting.py:161-180 | a step that keeps every record's columns keeps every role's columns present |
| Counting.OccupationRecord | src/h1b_counting.py:161-180 | one record after the three occupation loops keeps its columns |
| Counting.OccupationCriterion | src/h1b_counting.py:182-184 | certified, with non-empty primary code and name; the name column is among those required |
| Counting.TopOccupations | src/h1b_counting.py:139-198 | every record is rewritten by the three loops; the result is the header list and the top-`count` occupation report of the rewritten data |
| Counting.StateRecord | src/h1b_counting.py:222-238 | one record after the three state loops keeps its columns |
| Counting.StateCriterion | src/h1b_counting.py:240-241 | certified, with a non-empty primary work state |
| Counting.TopStates | src/h1b_counting.py:200-256 | every record is rewritten by the three loops; the result is the header list and the top-`count` state report of the rewritten data |
| Patterns.AnyRunMeaning | src/h1b_counting.py:278 | `.*` matches exactly when the rest matches at some later position, with no newline between |
| Patterns.EndingMeaning | src/h1b_counting.py:278 | `(endings)$` matches exactly where an ending occurs and is followed by the end, or by a final newline |
| Patterns.AfterStemMeaning | src/h1b_counting.py:278 | `.*(endings)$` matches exactly when an ending occurs later and ends the header |
| Patterns.FromStemMeaning | src/h1b_counting.py:278 | the pattern after its leading `.*` matches exactly where a stem occurs and the rest matches after it |
| Patterns.MatchDescribed | src/h1b_counting.py:278-287 | a match has a stem, then an ending no earlier than the stem's end, at the end of a newline-free header |
| Patterns.StemThenEnding | src/h1b_counting.py:278-287 | where the stem and the ending of a match sit |
| Patterns.DescribedMatch | src/h1b_counting.py:278-287 | such a header is matched |
| Patterns.PlainOccurrence | src/h1b_counting.py:278-287 | text equal to a newline-free literal holds no newline |
| Patterns.PatternMeaning | src/h1b_counting.py:278-287 | `re.match` of the fallback pattern accepts exactly the described headers |
| Patterns.MatchExtends | src/h1b_counting.py:278 | `re.match` anchors only the start: without `$`, appending text to a matched header keeps it matched |
| Patterns.DescribedEnds | src/h1b_counting.py:278-287 | a described header ends with one of the pattern's endings, where `$` matches |
| Resolution.Aliases | src/h1b_counting.py:11-17 | each role's alias table lists no header name twice |
| Resolution.Fallback | src/h1b_counting.py:278-287 | no literal of the five patterns holds a newline |
| Resolution.Columns | src/h1b_counting.py:271-287 | a role's columns are headers, in header order |
| Resolution.ResolveAll | src/h1b_counting.py:271-287 | every column of every role is a header |
| Resolution.Resolve | src/h1b_counting.py:290-294 | fails exactly when a role has no column or names and codes differ in number; otherwise gives each role's columns |
| Resolution.ColumnsMeaning | src/h1b_counting.py:271-287 | a role's columns are headers, in header order: exactly those in its alias table, or, when the table matches no header, exactly those its pattern accepts |
| Resolution.StaticColumns | src/h1b_counting.py:271-275 | when some header is in the alias table, the columns are the headers in the table |
| Resolution.FallbackColumns | src/h1b_counting.py:277-287 | when no header is in the table, the columns are the headers the pattern describes |
| Resolution.ColumnsDistinct | src/h1b_counting.py:271-287 | a header list naming no column twice gives each role distinct columns |
| Resolution.NameTail | src/h1b_counting.py:11 | a header the name table or the name pattern (line 278) accepts ends in `le` or `me` |
| Resolution.CodeTail | src/h1b_counting.py:12 | a header the code table or the code pattern (line 280) accepts ends in `de` |
| Resolution.NameCodeApart | src/h1b_counting.py:271-281 | no header is both an occupation name column and an occupation code column |
| ResolutionSamples.SampleResolves | src/h1b_counting.py:271-275 | a header list with one listed column per role resolves to those columns |
| ResolutionSamples.SampleNames | src/h1b_counting.py:271 | `soc_name` is found in the name table |
| ResolutionSamples.SampleCodes | src/h1b_counting.py:272 | `soc_code` is found in the code table |
| ResolutionSamples.SampleStatus | src/h1b_counting.py:273 | `case_status` is found in the status table |
| ResolutionSamples.SampleCases | src/h1b_counting.py:274 | `case_number` is found in the case number table |
| ResolutionSamples.SampleStates | src/h1b_counting.py:275 | `worksite_state` is found in the work state table |
| ResolutionSamples.FallbackSample | src/h1b_counting.py:280-281 | a code column missing from the table is found by its pattern, and a status column is not |
| ResolutionSamples.EmployerCode | src/h1b_counting.py:280 | `.*(soc).*_(code)$` matches `employer_soc_code` |
| ResolutionSamples.StatusNotCode | src/h1b_counting.py:280 | `.*(soc).*_(code)$` does not match `case_status` |
| Pipeline.OccupationData | src/h1b_counting.py:298 | the data after the occupation loops: every record rewritten, every role's columns kept |
| Pipeline.StateData | src/h1b_counting.py:299 | the data after the state loops: every record rewritten, every role's columns kept |
| Pipeline.ReportsFor | src/h1b_counting.py:298-299 | both header rows, and at most ten rows per report, none more than the input has records |
| Pipeline.BuildReports | src/h1b_counting.py:298-299 | both reports built in order on the same array; the state report sees the records the occupation loops rewrote |
| Pipeline.LoadedCovers | src/h1b_counting.py:268-294 | once the headers resolve, every loaded record has every resolved column |
| Pipeline.ResolvedPrimariesUnshared | src/h1b_counting.py:271-294 | when no header repeats, the resolved primary name and code are columns of their own |
| Pipeline.Expected | src/h1b_counting.py:271-299 | fails exactly when resolution fails |
| Pipeline.Run | src/h1b_counting.py:271-299 | gives `Expected`; on failure the data is left unchanged; on success every record is rewritten by both reports' loops |

## Left out

- `load_data` (lines 19-41) and `write_data` (lines 43-66) are left out: they read and write files
  through the `csv` module.
  - Their result is an input here: a header list and an array of records.
  - `Pipeline.Loaded` states what `csv.DictReader` guarantees: every record has a cell for every
    header.
  - Header lower-casing (line 33) is expected to have been done already.
  - The `'No data available'` refusal (lines 39-40) is not modelled. The model accepts an empty
    data set and gives two empty reports.
  - Extra fields of a long CSV row (collected by `DictReader` under the key `None`) are not modelled.
- `main`'s argument check, `sys.exit`, and the entry point (lines 259-269, 309-310) are left out;
  they are process handling.
- Logging and the catch-and-re-raise wrappers are left out: they only propagate the error, and the
  model returns errors as `Result` values.
- Aggregate.Percentage: the percentage cell holds an integer number of tenths, rounded half up on
  the exact ratio. The source instead holds the string `str(round(float(...), 1)) + "%"`. That
  string is rounded on a binary float with Python's round-half-even, and can differ by one tenth on
  a ratio that falls exactly on a half.
- Records.CompareValues: Python raises `TypeError` when a number is compared with a string. The
  model orders numbers first. No comparison in the program mixes the two.
- QueryEngine.Query: a sort column missing from a record is reported as `MissingSortColumn`
  (Python's `KeyError`) whenever any record lacks any sort column. Without directions (line 112)
  this matches Python, which builds every record's key list. With directions (lines 99-103) Python
  is lazy: it looks a column up only for the two records `sorted` is comparing, and only after they
  tie on every earlier column. So `[{a: 1}, {a: 2}]` sorted by `a`, `b` succeeds in Python and fails
  in the model, and so does any one-record list. The report queries sort on columns every record
  has, so they never meet the difference.
- Reconcile.ReconcileColumn, Reconcile.ReconcileOccupation, Counting.TopOccupations,
  Counting.TopStates: these require every record to hold every listed column, where Python would
  raise `KeyError`. Loaded data always meets that requirement.
- Reconcile.ReconcileOccupation, Counting.TopOccupations: these also require as many name columns
  as code columns. With more codes than names, Python raises `IndexError` once a record with an
  empty primary code reaches a missing name (line 178). With more names than codes, it ignores the
  extra names. `main` refuses unequal lists before calling either (line 293).
- Strings.Strip: its own contract does not say that the result is a slice of the input. That part
  is the separate lemma `Strings.StripIsInfix`.
- Patterns.Match: this is not a general regular-expression engine. It handles the one shape the
  five fallback patterns share, `.*(stems).*(endings)$`.
  - A group such as `_(title|name)` is written as the alternatives `_title` and `_name`.
  - The matcher follows `re.match` semantics: `.` does not match a newline, and `$` matches at the
    end or before a final newline.
