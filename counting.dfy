/** `get_top_occupations` (src/h1b_counting.py:139-198) and `get_top_states` (200-256) as they
    run: the reconciliation loops rewrite the data set in place, then the certified records are
    selected and sorted, walked once to count each label's run, ranked, and cut to `count` rows.
    Each method is proved to return the report that `Reports.Report` specifies. */
module Counting {
  import opened Records
  import opened Aggregate
  import opened QueryEngine
  import opened Reports
  import opened Reconcile

  /** The two `query_load` calls around the `groupby` loop (lines 182-194, 240-252). */
  method TopGroups(count: int, subject: Subject, data: seq<Record>, crit: Criterion, caseCol: string, groupCol: string)
    returns (headers: seq<string>, rows: seq<Record>)
    requires groupCol in crit.required
    ensures headers == Headers(subject)
    ensures Report(count, subject, data, crit, caseCol, groupCol) == Wrappers.Success(rows)
  {
    RankedUnfold(subject, data, crit, caseCol, groupCol);
    headers := Headers(subject);
    var filtered := Query(data, Wrappers.Some(Filter(crit)), Wrappers.Some([caseCol, groupCol]),
                          Wrappers.Some([groupCol]), Wrappers.None);
    var sorted := filtered.value;
    HaveLabel(sorted, groupCol);
    var grouped := Group(subject, sorted, groupCol);
    var ranked := Query(grouped, Wrappers.None, Wrappers.None, Wrappers.Some([COUNT_HEADER, subject.LabelHeader()]),
                        Wrappers.Some(["Descending", "Ascending"]));
    rows := Take(ranked.value, count);
  }

  /** Reconciling keeps every record's columns, so later passes find the columns they need. */
  lemma ColumnsKept(before: seq<Record>, after: seq<Record>, cols: seq<string>)
    requires |before| == |after|
    requires forall k :: 0 <= k < |after| ==> after[k].Keys == before[k].Keys
    requires AllHaveColumns(before, cols)
    ensures AllHaveColumns(after, cols)
  {
  }

  /** Every record the occupation report reads has each column of every role it uses. */
  predicate OccupationColumns(data: seq<Record>, names: seq<string>, codes: seq<string>, statuses: seq<string>, cases: seq<string>) {
    && 1 <= |names| == |codes| && 1 <= |statuses| && 1 <= |cases|
    && AllHaveColumns(data, names) && AllHaveColumns(data, codes)
    && AllHaveColumns(data, statuses) && AllHaveColumns(data, cases)
  }

  /** One record after the three loops of lines 161-180: case number, then status, then code and name. */
  function OccupationRecord(r: Record, names: seq<string>, codes: seq<string>, statuses: seq<string>, cases: seq<string>)
    : (r': Record)
    requires |names| == |codes|
    requires HasColumns(r, names) && HasColumns(r, codes) && HasColumns(r, statuses) && HasColumns(r, cases)
    ensures r'.Keys == r.Keys
  {
    var a := Reconciled(r, cases);
    var b := Reconciled(a, statuses);
    OccupationReconciled(b, names, codes)
  }

  /** The filter of lines 182-184: certified, with a non-empty primary SOC code and name. */
  function OccupationCriterion(names: seq<string>, codes: seq<string>, statuses: seq<string>): (c: Criterion)
    requires 1 <= |names| && 1 <= |codes| && 1 <= |statuses|
    ensures names[0] in c.required
  {
    Criterion(statuses[0], [codes[0], names[0]])
  }

  /** `get_top_occupations(count, data, ...)`. */
  method TopOccupations(count: int, data: array<Record>, names: seq<string>, codes: seq<string>,
                        statuses: seq<string>, cases: seq<string>)
    returns (headers: seq<string>, rows: seq<Record>)
    requires OccupationColumns(data[..], names, codes, statuses, cases)
    modifies data
    ensures forall k :: 0 <= k < data.Length ==>
      data[k] == OccupationRecord(old(data[k]), names, codes, statuses, cases)
    ensures OccupationColumns(data[..], names, codes, statuses, cases)
    ensures headers == Headers(Occupations)
    ensures Report(count, Occupations, data[..], OccupationCriterion(names, codes, statuses), cases[0], names[0])
              == Wrappers.Success(rows)
  {
    ghost var initial := data[..];
    ReconcileColumn(data, cases);
    ColumnsKept(initial, data[..], names);
    ColumnsKept(initial, data[..], codes);
    ColumnsKept(initial, data[..], statuses);
    ghost var afterCases := data[..];
    ReconcileColumn(data, statuses);
    ColumnsKept(afterCases, data[..], names);
    ColumnsKept(afterCases, data[..], codes);
    ColumnsKept(afterCases, data[..], cases);
    ghost var afterStatuses := data[..];
    ReconcileOccupation(data, names, codes);
    ColumnsKept(afterStatuses, data[..], names);
    ColumnsKept(afterStatuses, data[..], codes);
    ColumnsKept(afterStatuses, data[..], statuses);
    ColumnsKept(afterStatuses, data[..], cases);
    headers, rows := TopGroups(count, Occupations, data[..], OccupationCriterion(names, codes, statuses),
                               cases[0], names[0]);
  }

  /** Every record the state report reads has each column of every role it uses. */
  predicate StateColumns(data: seq<Record>, states: seq<string>, statuses: seq<string>, cases: seq<string>) {
    && 1 <= |states| && 1 <= |statuses| && 1 <= |cases|
    && AllHaveColumns(data, states) && AllHaveColumns(data, statuses) && AllHaveColumns(data, cases)
  }

  /** One record after the three loops of lines 222-238: work state, then case number, then status. */
  function StateRecord(r: Record, states: seq<string>, statuses: seq<string>, cases: seq<string>): (r': Record)
    requires HasColumns(r, states) && HasColumns(r, statuses) && HasColumns(r, cases)
    ensures r'.Keys == r.Keys
  {
    var a := Reconciled(r, states);
    var b := Reconciled(a, cases);
    Reconciled(b, statuses)
  }

  /** The filter of lines 240-241: certified, with a non-empty primary work state. */
  function StateCriterion(states: seq<string>, statuses: seq<string>): (c: Criterion)
    requires 1 <= |states| && 1 <= |statuses|
    ensures states[0] in c.required
  {
    Criterion(statuses[0], [states[0]])
  }

  /** `get_top_states(count, data, ...)`. */
  method TopStates(count: int, data: array<Record>, states: seq<string>, statuses: seq<string>, cases: seq<string>)
    returns (headers: seq<string>, rows: seq<Record>)
    requires StateColumns(data[..], states, statuses, cases)
    modifies data
    ensures forall k :: 0 <= k < data.Length ==> data[k] == StateRecord(old(data[k]), states, statuses, cases)
    ensures StateColumns(data[..], states, statuses, cases)
    ensures headers == Headers(States)
    ensures Report(count, States, data[..], StateCriterion(states, statuses), cases[0], states[0])
              == Wrappers.Success(rows)
  {
    ghost var initial := data[..];
    ReconcileColumn(data, states);
    ColumnsKept(initial, data[..], statuses);
    ColumnsKept(initial, data[..], cases);
    ghost var afterStates := data[..];
    ReconcileColumn(data, cases);
    ColumnsKept(afterStates, data[..], states);
    ColumnsKept(afterStates, data[..], statuses);
    ghost var afterCases := data[..];
    ReconcileColumn(data, statuses);
    ColumnsKept(afterCases, data[..], states);
    ColumnsKept(afterCases, data[..], cases);
    headers, rows := TopGroups(count, States, data[..], StateCriterion(states, statuses), cases[0], states[0]);
  }
}
