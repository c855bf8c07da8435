/** Multi-column field reconciliation (src/h1b_counting.py:161-180 and 222-238). When a role is
    spread over several columns, the loops rewrite each record's primary (first) column in place.
    The data set is an array of records; the Python dictionaries updated with `x.update` are the
    array's elements, written back one update at a time. */
module Reconcile {
  import opened Records

  predicate AllHaveColumns(data: seq<Record>, cols: seq<string>) {
    forall i :: 0 <= i < |data| ==> HasColumns(data[i], cols)
  }

  /** The first non-empty cell among `cols`, scanning left to right; the last column's cell when
      all of them are empty. */
  function Coalesce(r: Record, cols: seq<string>): (v: Value)
    requires |cols| >= 1 && HasColumns(r, cols)
    ensures forall j :: 0 <= j < |cols| && !Empty(r[cols[j]]) && (forall k :: 0 <= k < j ==> Empty(r[cols[k]]))
              ==> v == r[cols[j]]
    ensures (forall k :: 0 <= k < |cols| ==> Empty(r[cols[k]])) ==> v == r[cols[|cols| - 1]]
    ensures Empty(v) <==> forall k :: 0 <= k < |cols| ==> Empty(r[cols[k]])
  {
    if |cols| == 1 || !Empty(r[cols[0]]) then r[cols[0]]
    else
      var v := Coalesce(r, cols[1..]);
      assert forall k :: 1 <= k < |cols| ==> cols[k] == cols[1..][k - 1];
      v
  }

  /** One record after the loops of lines 161-171: its primary column holds `Coalesce`, and no
      other column changes. */
  function Reconciled(r: Record, cols: seq<string>): (r': Record)
    requires HasColumns(r, cols)
    ensures r'.Keys == r.Keys
    ensures forall c :: c in r && (|cols| == 0 || c != cols[0]) ==> r'[c] == r[c]
    ensures |cols| >= 1 ==> r'[cols[0]] == Coalesce(r, cols)
  {
    if |cols| <= 1 then r else r[cols[0] := Coalesce(r, cols)]
  }

  /** Scanning one more column extends the coalesced value the way one pass of the inner loop does. */
  lemma {:induction false} CoalesceSnoc(r: Record, cols: seq<string>, d: string)
    requires |cols| >= 1 && HasColumns(r, cols + [d])
    ensures HasColumns(r, cols)
    ensures Coalesce(r, cols + [d]) == if Empty(Coalesce(r, cols)) then r[d] else Coalesce(r, cols)
  {
    var ext := cols + [d];
    assert ext[0] == cols[0];
    if |cols| > 1 && Empty(r[cols[0]]) {
      assert ext[1..] == cols[1..] + [d];
      CoalesceSnoc(r, cols[1..], d);
    }
  }

  /** Reconciling a record twice is reconciling it once: `main` runs the status and case-number
      passes once per report, on the same records (lines 298-299). */
  lemma {:induction false} ReconciledIdempotent(r: Record, cols: seq<string>)
    requires HasColumns(r, cols)
    ensures HasColumns(Reconciled(r, cols), cols)
    ensures Reconciled(Reconciled(r, cols), cols) == Reconciled(r, cols)
  {
    if |cols| > 1 {
      var r' := Reconciled(r, cols);
      var v := Coalesce(r, cols);
      if Empty(v) {
        // every listed cell of r is empty, and r' only wrote an empty cell over one of them
        assert forall k :: 0 <= k < |cols| ==> Empty(r'[cols[k]]);
        assert r'[cols[|cols| - 1]] == v;
      }
    }
  }

  /** The reconciliation loop for one role (lines 161-171, 222-238): for every record and for
      i = 1, 2, ..., the primary cell is replaced by column i's cell while it is empty. */
  method ReconcileColumn(data: array<Record>, cols: seq<string>)
    requires AllHaveColumns(data[..], cols)
    modifies data
    ensures forall k :: 0 <= k < data.Length ==> data[k] == Reconciled(old(data[k]), cols)
  {
    if |cols| > 1 {
      var k := 0;
      while k < data.Length
        invariant 0 <= k <= data.Length
        invariant forall m :: 0 <= m < k ==> data[m] == Reconciled(old(data[m]), cols)
        invariant forall m :: k <= m < data.Length ==> data[m] == old(data[m])
      {
        assert HasColumns(data[k], cols) by { assert data[k] == data[..][k]; }
        ReconcileRecord(data, k, cols);
        k := k + 1;
      }
    }
  }

  /** The inner loop of lines 163-165 on the record at index `k`, updated in place. */
  method ReconcileRecord(data: array<Record>, k: nat, cols: seq<string>)
    requires k < data.Length && |cols| > 1 && HasColumns(data[k], cols)
    modifies data
    ensures data[k] == Reconciled(old(data[k]), cols)
    ensures forall m :: 0 <= m < data.Length && m != k ==> data[m] == old(data[m])
  {
    ghost var x := data[k];
    var i := 1;
    while i < |cols|
      invariant 1 <= i <= |cols|
      invariant forall m :: 0 <= m < data.Length && m != k ==> data[m] == old(data[m])
      invariant data[k] == x[cols[0] := Coalesce(x, cols[..i])]
    {
      assert cols[..i + 1] == cols[..i] + [cols[i]];
      CoalesceSnoc(x, cols[..i], cols[i]);
      var primary := data[k][cols[0]];
      var value := if Empty(primary) then data[k][cols[i]] else primary;
      data[k] := data[k][cols[0] := value];
      i := i + 1;
    }
    assert cols[..i] == cols;
  }

  /** A record after the occupation loop of lines 173-180 has run for i = 1 .. n-1: while the
      primary SOC code is empty, code i and name i are both read (lines 177-178) and then written
      to the primary code and the primary name (lines 179-180). */
  function OccupationSteps(r: Record, names: seq<string>, codes: seq<string>, n: nat): (r': Record)
    requires 1 <= n <= |codes| == |names|
    requires HasColumns(r, names) && HasColumns(r, codes)
    ensures r'.Keys == r.Keys
    decreases n
  {
    if n == 1 then r
    else
      var p := OccupationSteps(r, names, codes, n - 1);
      if Empty(p[codes[0]]) then
        p[codes[0] := p[codes[n - 1]]][names[0] := p[names[n - 1]]]
      else p
  }

  /** The primary name and code are columns of their own: neither appears again in either list,
      and they differ from each other. `Pipeline.ResolvedPrimariesUnshared` proves this of the
      resolved columns whenever the header list names no column twice. */
  predicate PrimariesUnshared(names: seq<string>, codes: seq<string>)
    requires 1 <= |codes| == |names|
  {
    && codes[0] != names[0]
    && forall i :: 1 <= i < |codes| ==>
         codes[i] != codes[0] && codes[i] != names[0] && names[i] != codes[0] && names[i] != names[0]
  }

  /** Among the indices 1 .. n-1, the first whose code is non-empty; n-1 when there is none. */
  function FirstFilled(r: Record, codes: seq<string>, n: nat): (j: nat)
    requires 2 <= n <= |codes| && HasColumns(r, codes)
    ensures 1 <= j < n
    ensures forall k :: 1 <= k < j ==> Empty(r[codes[k]])
    ensures !Empty(r[codes[j]]) || j == n - 1
    ensures (forall k :: 1 <= k < n ==> Empty(r[codes[k]])) ==> j == n - 1
  {
    if n == 2 then 1
    else
      var j := FirstFilled(r, codes, n - 1);
      if !Empty(r[codes[j]]) then j else n - 1
  }

  /** What the occupation loop achieves when the primaries are unshared: a record whose primary
      code is empty takes its code AND its name from the same index, the first one whose code is
      non-empty (the last index when every code is empty); any other record is left alone. */
  function OccupationFilled(r: Record, names: seq<string>, codes: seq<string>): (r': Record)
    requires 1 <= |codes| == |names|
    requires HasColumns(r, names) && HasColumns(r, codes)
    ensures r'.Keys == r.Keys
    ensures forall c :: c in r && c != codes[0] && c != names[0] ==> r'[c] == r[c]
    ensures |codes| == 1 || !Empty(r[codes[0]]) ==> r' == r
    ensures |codes| >= 2 && Empty(r[codes[0]]) && codes[0] != names[0] ==>
      exists j :: 1 <= j < |codes|
        && (forall k :: 1 <= k < j ==> Empty(r[codes[k]]))
        && (!Empty(r[codes[j]]) || j == |codes| - 1)
        && r'[codes[0]] == r[codes[j]] && r'[names[0]] == r[names[j]]
  {
    if |codes| == 1 || !Empty(r[codes[0]]) then r
    else
      var j := FirstFilled(r, codes, |codes|);
      r[codes[0] := r[codes[j]]][names[0] := r[names[j]]]
  }

  lemma {:induction false} OccupationStepsFill(r: Record, names: seq<string>, codes: seq<string>, n: nat)
    requires 1 <= n <= |codes| == |names|
    requires HasColumns(r, names) && HasColumns(r, codes)
    requires PrimariesUnshared(names, codes)
    ensures OccupationSteps(r, names, codes, n) ==
      if n == 1 || !Empty(r[codes[0]]) then r
      else var j := FirstFilled(r, codes, n); r[codes[0] := r[codes[j]]][names[0] := r[names[j]]]
    decreases n
  {
    if n > 1 {
      OccupationStepsFill(r, names, codes, n - 1);
      if Empty(r[codes[0]]) && n > 2 {
        var j := FirstFilled(r, codes, n - 1);
        assert OccupationSteps(r, names, codes, n - 1)[codes[0]] == r[codes[j]];
      }
    }
  }

  /** The occupation loop computes `OccupationFilled` whenever the primary columns are unshared. */
  lemma OccupationStepsMeaning(r: Record, names: seq<string>, codes: seq<string>)
    requires 1 <= |codes| == |names|
    requires HasColumns(r, names) && HasColumns(r, codes)
    requires PrimariesUnshared(names, codes)
    ensures OccupationSteps(r, names, codes, |codes|) == OccupationFilled(r, names, codes)
  {
    OccupationStepsFill(r, names, codes, |codes|);
  }

  /** One record after the occupation loop, as `get_top_occupations` runs it (the loop only runs
      when there is more than one code column). */
  function OccupationReconciled(r: Record, names: seq<string>, codes: seq<string>): (r': Record)
    requires |codes| == |names|
    requires HasColumns(r, names) && HasColumns(r, codes)
    ensures r'.Keys == r.Keys
    ensures 1 <= |codes| && PrimariesUnshared(names, codes) ==> r' == OccupationFilled(r, names, codes)
  {
    if |codes| <= 1 then r
    else if PrimariesUnshared(names, codes) then
      OccupationStepsMeaning(r, names, codes);
      OccupationSteps(r, names, codes, |codes|)
    else OccupationSteps(r, names, codes, |codes|)
  }

  /** Both cells are read before either write: when the second name column is the primary code
      column, the primary name receives that column's old (empty) value, not the code just
      copied into it. */
  lemma ReadBeforeWrite()
    ensures var r := map["n0" := Str(""), "c0" := Str(""), "c1" := Str("X")];
      var r' := OccupationReconciled(r, ["n0", "c0"], ["c0", "c1"]);
      r'["c0"] == Str("X") && r'["n0"] == Str("")
  {
    var r := map["n0" := Str(""), "c0" := Str(""), "c1" := Str("X")];
    var names, codes := ["n0", "c0"], ["c0", "c1"];
    assert OccupationSteps(r, names, codes, 1) == r;
    assert Empty(r[codes[0]]) && r[codes[1]] == Str("X") && r[names[1]] == Str("");
    assert OccupationSteps(r, names, codes, 2) == r[codes[0] := Str("X")][names[0] := Str("")];
  }

  /** The occupation loop of lines 173-180. */
  method ReconcileOccupation(data: array<Record>, names: seq<string>, codes: seq<string>)
    requires |codes| == |names|
    requires AllHaveColumns(data[..], names) && AllHaveColumns(data[..], codes)
    modifies data
    ensures forall k :: 0 <= k < data.Length ==> data[k] == OccupationReconciled(old(data[k]), names, codes)
    ensures |codes| >= 1 && PrimariesUnshared(names, codes) ==>
      forall k :: 0 <= k < data.Length ==> data[k] == OccupationFilled(old(data[k]), names, codes)
  {
    if |codes| > 1 {
      var k := 0;
      while k < data.Length
        invariant 0 <= k <= data.Length
        invariant forall m :: 0 <= m < k ==> data[m] == OccupationReconciled(old(data[m]), names, codes)
        invariant forall m :: k <= m < data.Length ==> data[m] == old(data[m])
      {
        ghost var x := data[k];
        assert x == old(data[k]);
        assert HasColumns(x, names) && HasColumns(x, codes) by { assert x == data[..][k]; }
        var i := 1;
        while i < |codes|
          invariant 1 <= i <= |codes|
          invariant forall m :: 0 <= m < k ==> data[m] == OccupationReconciled(old(data[m]), names, codes)
          invariant forall m :: k < m < data.Length ==> data[m] == old(data[m])
          invariant data[k] == OccupationSteps(x, names, codes, i)
        {
          if Empty(data[k][codes[0]]) {
            var code, name := data[k][codes[i]], data[k][names[i]];
            data[k] := data[k][codes[0] := code];
            data[k] := data[k][names[0] := name];
          }
          i := i + 1;
        }
        k := k + 1;
      }
    }
  }
}
