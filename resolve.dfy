/** Column resolution in `main` (src/h1b_counting.py:271-294): for each of the five roles, the
    header names found in the role's alias table (lines 11-17), in header order; when none is, the
    header names the role's fallback pattern matches; and a failure when a role is left without a
    column or the occupation names and codes differ in number. */
module Resolution {
  import opened Wrappers
  import Sequences
  import Patterns
  import Strings

  datatype Role = OccupationName | OccupationCode | Status | CaseNumber | WorkState

  /** The static alias tables of lines 11-17. */
  function Aliases(role: Role): (table: seq<string>)
    ensures forall i, j :: 0 <= i < j < |table| ==> table[i] != table[j]
  {
    match role
    case OccupationName =>
      ["pw_soc_title", "pw_soc_name", "suggested_soc_title", "suggested_soc_name", "pwd_soc_title",
       "pwd_soc_name", "soc_title", "lca_case_soc_name", "lca_case_soc_title", "soc_name"]
    case OccupationCode =>
      ["pw_soc_code", "suggested_soc_code", "pwd_soc_code", "soc_code", "pw soc code", "lca_case_soc_code"]
    case Status => ["case_status", "case status", "approval_status", "status"]
    case CaseNumber => ["case_number", "case number", "case_no", "lca_case_number"]
    case WorkState =>
      ["job_info_work_state", "primary_worksite_state", "worksite_state", "job info work state",
       "alien_work_state", "worksite_location_state", "state_2", "state_1", "lca_case_workloc1_state",
       "lca_case_workloc2_state"]
  }

  /** The fallback patterns of lines 277-287. */
  function Fallback(role: Role): (p: Patterns.Pattern)
    ensures Patterns.Plainly(p)
  {
    match role
    case OccupationName => Patterns.Pattern(["soc"], ["_title", "_name"])     // .*(soc).*_(title|name)$
    case OccupationCode => Patterns.Pattern(["soc"], ["_code"])               // .*(soc).*_(code)$
    case Status => Patterns.Pattern(["case", "approval"], ["status"])         // .*(case|approval).*status$
    case CaseNumber => Patterns.Pattern(["case"], ["_number", "_no"])         // .*case.*_(number|no)$
    case WorkState => Patterns.Pattern(["work", "worksite"], ["_state"])      // .*(work|worksite).*_state$
  }

  function InTable(role: Role): string -> bool {
    h => h in Aliases(role)
  }

  function Matches(role: Role): string -> bool {
    h => Patterns.Match(Patterns.Pieces(Fallback(role)), h, 0)
  }

  /** The columns of one role: the static pass of lines 271-275, or, when that finds nothing,
      the regex pass of lines 277-287. */
  function Columns(headers: seq<string>, role: Role): (cols: seq<string>)
    ensures Sequences.IsSubsequence(cols, headers)
    ensures forall h :: h in cols ==> h in headers
  {
    var found := Sequences.Keep(headers, InTable(role));
    Sequences.KeepIsSubsequence(headers, InTable(role));
    Sequences.KeepIsSubsequence(headers, Matches(role));
    if found != [] then found else Sequences.Keep(headers, Matches(role))
  }

  /** The columns that hold each role, primary column first. */
  datatype Roles = Roles(names: seq<string>, codes: seq<string>, statuses: seq<string>,
                         cases: seq<string>, states: seq<string>)

  datatype ResolveError = MissingFields  // the `ValueError` of line 294

  /** Lines 292-294: every role needs a column, and names and codes must pair up. */
  predicate Complete(roles: Roles) {
    && roles.names != [] && roles.codes != [] && roles.statuses != []
    && roles.cases != [] && roles.states != [] && |roles.names| == |roles.codes|
  }

  function ResolveAll(headers: seq<string>): (roles: Roles)
    ensures forall c :: c in roles.names + roles.codes + roles.statuses + roles.cases + roles.states ==> c in headers
  {
    Roles(Columns(headers, OccupationName), Columns(headers, OccupationCode), Columns(headers, Status),
          Columns(headers, CaseNumber), Columns(headers, WorkState))
  }

  function Resolve(headers: seq<string>): (r: Result<Roles, ResolveError>)
    ensures r.Success? <==> Complete(ResolveAll(headers))
    ensures r.Success? ==> r.value == ResolveAll(headers)
  {
    var roles := ResolveAll(headers);
    if Complete(roles) then Success(roles) else Failure(MissingFields)
  }

  /** A header list naming no column twice gives each role distinct columns. */
  lemma ColumnsDistinct(headers: seq<string>, role: Role)
    requires Sequences.Distinct(headers)
    ensures Sequences.Distinct(Columns(headers, role))
  {
    Sequences.KeepDistinct(headers, InTable(role));
    Sequences.KeepDistinct(headers, Matches(role));
  }

  /** A header the name table lists or the name pattern describes ends, before `$`, in `le` or
      `me` (`_title`, `_name`) at some `e`. */
  lemma NameTail(h: string) returns (e: nat)
    requires h in Aliases(OccupationName) || Patterns.Described(Fallback(OccupationName), h)
    ensures Patterns.AtEnd(h, e) && 2 <= e <= |h| && h[e - 1] == 'e' && (h[e - 2] == 'l' || h[e - 2] == 'm')
  {
    if h in Aliases(OccupationName) {
      e := |h|;
    } else {
      var q, e' := Patterns.DescribedEnds(Fallback(OccupationName), h);
      var ending := Fallback(OccupationName).endings[q];
      assert h[e' - 1] == h[e' - |ending|..e'][|ending| - 1];
      assert h[e' - 2] == h[e' - |ending|..e'][|ending| - 2];
      e := e';
    }
  }

  /** A header the code table lists or the code pattern describes ends, before `$`, in `de`
      (`_code`) at some `e`. */
  lemma CodeTail(h: string) returns (e: nat)
    requires h in Aliases(OccupationCode) || Patterns.Described(Fallback(OccupationCode), h)
    ensures Patterns.AtEnd(h, e) && 2 <= e <= |h| && h[e - 1] == 'e' && h[e - 2] == 'd'
  {
    if h in Aliases(OccupationCode) {
      e := |h|;
    } else {
      var q, e' := Patterns.DescribedEnds(Fallback(OccupationCode), h);
      var ending := Fallback(OccupationCode).endings[q];
      assert h[e' - 1] == h[e' - |ending|..e'][|ending| - 1];
      assert h[e' - 2] == h[e' - |ending|..e'][|ending| - 2];
      e := e';
    }
  }

  /** No header can hold both an occupation name and an occupation code: whichever pass finds
      each, their endings differ. */
  lemma NameCodeApart(headers: seq<string>, h: string)
    ensures !(h in Columns(headers, OccupationName) && h in Columns(headers, OccupationCode))
  {
    ColumnsMeaning(headers, OccupationName);
    ColumnsMeaning(headers, OccupationCode);
    if h in Columns(headers, OccupationName) && h in Columns(headers, OccupationCode) {
      var e1 := NameTail(h);
      var e2 := CodeTail(h);
    }
  }

  /** A role's columns are header names, kept in header order; each is a header the alias table
      lists, or, when the table lists no header at all, a header the fallback pattern accepts. */
  lemma ColumnsMeaning(headers: seq<string>, role: Role)
    ensures Sequences.IsSubsequence(Columns(headers, role), headers)
    ensures forall h :: h in Columns(headers, role) <==>
      && h in headers
      && (h in Aliases(role) ||
          ((forall g :: g in headers ==> g !in Aliases(role)) && Patterns.Described(Fallback(role), h)))
  {
    if Sequences.Keep(headers, InTable(role)) == [] {
      FallbackColumns(headers, role);
    } else {
      StaticColumns(headers, role);
    }
  }

  lemma StaticColumns(headers: seq<string>, role: Role)
    requires Sequences.Keep(headers, InTable(role)) != []
    ensures exists g :: g in headers && g in Aliases(role)
    ensures forall h :: h in Columns(headers, role) <==> h in headers && h in Aliases(role)
  {
    var found := Sequences.Keep(headers, InTable(role));
    assert found[0] in found;
  }

  lemma FallbackColumns(headers: seq<string>, role: Role)
    requires Sequences.Keep(headers, InTable(role)) == []
    ensures forall g :: g in headers ==> g !in Aliases(role)
    ensures forall h :: h in Columns(headers, role) <==> h in headers && Patterns.Described(Fallback(role), h)
  {
    forall h
      ensures Patterns.Match(Patterns.Pieces(Fallback(role)), h, 0) <==> Patterns.Described(Fallback(role), h)
    {
      Patterns.PatternMeaning(Fallback(role), h);
    }
  }
}
