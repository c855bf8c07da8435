/** `main` (src/h1b_counting.py:259-306) once the input is loaded: resolve the five roles, refuse
    a header list that lacks one, then build the top-10 occupation report and the top-10 state
    report, in that order, on the same data set. The state report therefore sees the records the
    occupation report has already reconciled. */
module Pipeline {
  import opened Wrappers
  import opened Records
  import opened Reconcile
  import opened Aggregate
  import opened Reports
  import opened Counting
  import opened Resolution
  import Sequences

  /** The report length `main` asks for (lines 298-299). */
  const TOP: int := 10

  datatype Output = Output(occupationHeaders: seq<string>, occupations: seq<Record>,
                           stateHeaders: seq<string>, states: seq<Record>)

  /** Every record has a cell for every column of every role. */
  predicate Covers(data: seq<Record>, roles: Roles) {
    && Complete(roles)
    && AllHaveColumns(data, roles.names) && AllHaveColumns(data, roles.codes)
    && AllHaveColumns(data, roles.statuses) && AllHaveColumns(data, roles.cases)
    && AllHaveColumns(data, roles.states)
  }

  /** The data set after `get_top_occupations` has reconciled it. */
  function OccupationData(data: seq<Record>, roles: Roles): (r: seq<Record>)
    requires Covers(data, roles)
    ensures |r| == |data| && Covers(r, roles)
    ensures forall k :: 0 <= k < |r| ==> r[k] == OccupationRecord(data[k], roles.names, roles.codes, roles.statuses, roles.cases)
  {
    var r := seq(|data|, k requires 0 <= k < |data| =>
      OccupationRecord(data[k], roles.names, roles.codes, roles.statuses, roles.cases));
    ColumnsKept(data, r, roles.states);
    r
  }

  /** The data set after `get_top_states` has reconciled it in turn. */
  function StateData(data: seq<Record>, roles: Roles): (r: seq<Record>)
    requires Covers(data, roles)
    ensures |r| == |data| && Covers(r, roles)
    ensures forall k :: 0 <= k < |r| ==> r[k] == StateRecord(data[k], roles.states, roles.statuses, roles.cases)
  {
    var r := seq(|data|, k requires 0 <= k < |data| => StateRecord(data[k], roles.states, roles.statuses, roles.cases));
    ColumnsKept(data, r, roles.names);
    ColumnsKept(data, r, roles.codes);
    r
  }

  /** The two reports `main` writes out, each with its header row: occupations on the data as
      the occupation loops leave it, states on the data as the state loops then leave it. */
  function ReportsFor(data: seq<Record>, roles: Roles): (o: Output)
    requires Covers(data, roles)
    ensures o.occupationHeaders == Headers(Occupations) && o.stateHeaders == Headers(States)
    ensures |o.occupations| <= TOP && |o.occupations| <= |data|
    ensures |o.states| <= TOP && |o.states| <= |data|
  {
    var first := OccupationData(data, roles);
    var last := StateData(first, roles);
    var occupations := OccupationCriterion(roles.names, roles.codes, roles.statuses);
    var states := StateCriterion(roles.states, roles.statuses);
    RankedUnfold(Occupations, first, occupations, roles.cases[0], roles.names[0]);
    RankedUnfold(States, last, states, roles.cases[0], roles.states[0]);
    Output(Headers(Occupations), Report(TOP, Occupations, first, occupations, roles.cases[0], roles.names[0]).value,
           Headers(States), Report(TOP, States, last, states, roles.cases[0], roles.states[0]).value)
  }

  /** An output whose headers and reports are those of the two reconciled data sets is
      `ReportsFor`. */
  lemma ReportsForIs(data: seq<Record>, roles: Roles, o: Output)
    requires Covers(data, roles)
    requires o.occupationHeaders == Headers(Occupations) && o.stateHeaders == Headers(States)
    requires Report(TOP, Occupations, OccupationData(data, roles),
                    OccupationCriterion(roles.names, roles.codes, roles.statuses), roles.cases[0], roles.names[0])
             == Success(o.occupations)
    requires Report(TOP, States, StateData(OccupationData(data, roles), roles),
                    StateCriterion(roles.states, roles.statuses), roles.cases[0], roles.states[0])
             == Success(o.states)
    ensures ReportsFor(data, roles) == o
  {
  }

  /** Lines 298-299: both reports, one after the other, on the same array. */
  method BuildReports(roles: Roles, data: array<Record>) returns (out: Output)
    requires Covers(data[..], roles)
    modifies data
    ensures out == ReportsFor(old(data[..]), roles)
    ensures data[..] == StateData(OccupationData(old(data[..]), roles), roles)
  {
    ghost var initial := data[..];
    var occupationHeaders, occupations := TopOccupations(TOP, data, roles.names, roles.codes, roles.statuses, roles.cases);
    assert data[..] == OccupationData(initial, roles);
    ghost var first := data[..];
    var stateHeaders, states := TopStates(TOP, data, roles.states, roles.statuses, roles.cases);
    assert data[..] == StateData(first, roles);
    out := Output(occupationHeaders, occupations, stateHeaders, states);
    ReportsForIs(initial, roles, out);
  }

  /** Every record has a cell for every header, as `csv.DictReader` builds them. */
  predicate Loaded(data: seq<Record>, headers: seq<string>) {
    AllHaveColumns(data, headers)
  }

  /** A header list that resolves gives roles whose columns every loaded record has. */
  lemma LoadedCovers(data: seq<Record>, headers: seq<string>)
    requires Loaded(data, headers) && Resolve(headers).Success?
    ensures Covers(data, Resolve(headers).value)
  {
  }

  /** When the header list names no column twice, the primary occupation name and code the
      resolution gives are columns of their own, so the occupation loop refills them as
      `OccupationFilled` says. */
  lemma ResolvedPrimariesUnshared(headers: seq<string>)
    requires Sequences.Distinct(headers) && Resolve(headers).Success?
    ensures PrimariesUnshared(Resolve(headers).value.names, Resolve(headers).value.codes)
  {
    var names, codes := Columns(headers, OccupationName), Columns(headers, OccupationCode);
    assert Resolve(headers).value.names == names && Resolve(headers).value.codes == codes;
    ColumnsDistinct(headers, OccupationName);
    ColumnsDistinct(headers, OccupationCode);
    forall i | 0 <= i < |codes|
      ensures codes[i] != names[0] && names[i] != codes[0]
    {
      NameCodeApart(headers, names[0]);
      NameCodeApart(headers, codes[0]);
    }
  }

  /** What `main` produces from the loaded header list and records. */
  function Expected(data: seq<Record>, headers: seq<string>): (r: Result<Output, ResolveError>)
    requires Loaded(data, headers)
    ensures r.Failure? <==> Resolve(headers).Failure?
  {
    var roles :- Resolve(headers);
    LoadedCovers(data, headers);
    Success(ReportsFor(data, roles))
  }

  /** Lines 271-299. */
  method Run(headers: seq<string>, data: array<Record>) returns (result: Result<Output, ResolveError>)
    requires Loaded(data[..], headers)
    modifies data
    ensures result == Expected(old(data[..]), headers)
    ensures result.Failure? ==> data[..] == old(data[..])
    ensures result.Success? ==>
      && Covers(old(data[..]), Resolve(headers).value)
      && data[..] == StateData(OccupationData(old(data[..]), Resolve(headers).value), Resolve(headers).value)
  {
    var resolved := Resolve(headers);
    if resolved.Failure? {
      return Failure(resolved.error);
    }
    LoadedCovers(data[..], headers);
    var out := BuildReports(resolved.value, data);
    result := Success(out);
  }
}
