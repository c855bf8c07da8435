/** The pieces of the two reports that do not depend on where the data came from: the percentage
    of lines 118-136, the rows built by the `groupby` loops of lines 187-191 and 244-249, and sums
    over record lists, which a stable sort leaves unchanged. */
module Aggregate {
  import opened Wrappers
  import opened Records
  import opened Grouping
  import QueryEngine

  const COUNT_HEADER: string := "NUMBER_CERTIFIED_APPLICATIONS"
  const PERCENT_HEADER: string := "PERCENTAGE"

  /** Which report is being built; the two differ only in the name of their first column. */
  datatype Subject = Occupations | States {
    function LabelHeader(): string {
      match this
      case Occupations => "TOP_OCCUPATIONS"
      case States => "TOP_STATES"
    }
  }

  /** The three report columns, in the order `get_top_occupations` and `get_top_states` return. */
  function Headers(subject: Subject): (h: seq<string>)
    ensures |h| == 3 && h[1] == COUNT_HEADER && h[2] == PERCENT_HEADER
    ensures h[0] != COUNT_HEADER && h[0] != PERCENT_HEADER && COUNT_HEADER != PERCENT_HEADER
  {
    [subject.LabelHeader(), COUNT_HEADER, PERCENT_HEADER]
  }

  datatype PercentError = ZeroDenominator  // the `ValueError` of line 132

  /** `percentage(part, whole)`, in tenths of a percent: `100 * part / whole` rounded to one
      decimal place, halves rounded up. A zero denominator is refused. */
  function Percentage(part: nat, whole: nat): (r: Result<int, PercentError>)
    ensures r.Failure? <==> whole == 0
    // r.value tenths is the nearest tenth to 1000 * part / whole tenths
    ensures r.Success? ==> -(whole as int) <= 2000 * part - 2 * whole * r.value < whole
  {
    if whole == 0 then Failure(ZeroDenominator)
    else
      var n, d := 2000 * part + whole, 2 * whole;
      var q := n / d;
      assert n == d * q + n % d && 0 <= n % d < d;
      Success(q)
  }

  /** The rounding condition of `Percentage` leaves exactly one candidate. */
  lemma PercentageUnique(part: nat, whole: nat, t: int)
    requires 0 < whole
    requires -(whole as int) <= 2000 * part - 2 * whole * t < whole
    ensures Percentage(part, whole) == Success(t)
  {
    var q := Percentage(part, whole).value;
    var d := 2 * whole;
    assert d * q - d * t == d * (q - t);
    MultiplySign(d, q - t);
  }

  lemma MultiplyMonotone(m: nat, a: int, b: int)
    requires a <= b
    ensures m * a <= m * b
  {
  }

  lemma MultiplySign(m: int, k: int)
    requires 0 < m
    ensures 1 <= k ==> m <= m * k
    ensures k <= -1 ==> m * k <= -m
  {
    if 1 <= k {
      MultiplyMonotone(m, 1, k);
    }
    if k <= -1 {
      MultiplyMonotone(m, k, -1);
    }
  }

  /** A share of a whole lies between 0 % and 100 %, and the whole is exactly 100 %. */
  lemma PercentageBounds(part: nat, whole: nat)
    requires part <= whole && 0 < whole
    ensures 0 <= Percentage(part, whole).value <= 1000
    ensures part == whole ==> Percentage(part, whole).value == 1000
  {
    var q := Percentage(part, whole).value;
    if q < 0 {
      MultiplyMonotone(2 * whole, q, -1);
    }
    if q > 1000 {
      MultiplyMonotone(2 * whole, 1001, q);
    }
    if part == whole {
      PercentageUnique(part, whole, 1000);
    }
  }

  /** One row of a report: the group's label, its size and its share of all certified records. */
  function Row(subject: Subject, group: Value, part: nat, whole: nat): (row: Record)
    requires 0 < whole
    ensures row.Keys == {subject.LabelHeader(), COUNT_HEADER, PERCENT_HEADER}
  {
    map[subject.LabelHeader() := group, COUNT_HEADER := Num(part),
        PERCENT_HEADER := Num(Percentage(part, whole).value)]
  }

  function RowsOf(subject: Subject, rs: seq<(Value, nat)>, whole: nat): (rows: seq<Record>)
    requires rs != [] ==> 0 < whole
    ensures |rows| == |rs|
    ensures forall k :: 0 <= k < |rs| ==> rows[k] == Row(subject, rs[k].0, rs[k].1, whole)
  {
    seq(|rs|, k requires 0 <= k < |rs| => Row(subject, rs[k].0, rs[k].1, whole))
  }

  /** The rows lines 187-191 (and 244-249) build from the sorted certified records: one per run of
      equal labels, holding the run's length and its percentage of all those records. */
  function Groups(subject: Subject, sorted: seq<Record>, groupCol: string): (g: seq<Record>)
    requires forall i :: 0 <= i < |sorted| ==> groupCol in sorted[i]
    ensures |g| <= |sorted|
    ensures g == [] <==> sorted == []
    ensures forall i :: 0 <= i < |g| ==> g[i].Keys == {subject.LabelHeader(), COUNT_HEADER, PERCENT_HEADER}
  {
    var ls := Labels(sorted, groupCol);
    RowsOf(subject, Runs(ls), |sorted|)
  }

  /** `itertools.groupby` followed by `len(list(v))`: walks the list once, measuring each run. */
  method Group(subject: Subject, sorted: seq<Record>, groupCol: string) returns (rows: seq<Record>)
    requires forall i :: 0 <= i < |sorted| ==> groupCol in sorted[i]
    ensures rows == Groups(subject, sorted, groupCol)
  {
    ghost var ls := Labels(sorted, groupCol);
    ghost var done: seq<(Value, nat)> := [];
    var whole := |sorted|;
    rows := [];
    var i := 0;
    while i < |sorted|
      invariant 0 <= i <= |sorted|
      invariant done + Runs(ls[i..]) == Runs(ls)
      invariant done != [] ==> 0 < whole
      invariant rows == RowsOf(subject, done, whole)
      decreases |sorted| - i
    {
      var group := sorted[i][groupCol];
      var j := RunEnd(sorted, groupCol, i);
      var part: nat := j - i;
      RunStep(ls, i, j, group, part);
      Concat3(done, [(group, part)], Runs(ls[j..]));
      RowsOfSnoc(subject, done, (group, part), whole);
      done := done + [(group, part)];
      rows := rows + [Row(subject, group, part, whole)];
      i := j;
    }
    assert ls[i..] == [];
  }

  /** The end of the run of records that share the label of `sorted[i]`. */
  method RunEnd(sorted: seq<Record>, groupCol: string, i: nat) returns (j: nat)
    requires forall k :: 0 <= k < |sorted| ==> groupCol in sorted[k]
    requires i < |sorted|
    ensures i < j <= |sorted|
    ensures forall k :: i <= k < j ==> sorted[k][groupCol] == sorted[i][groupCol]
    ensures j == |sorted| || sorted[j][groupCol] != sorted[i][groupCol]
  {
    j := i + 1;
    while j < |sorted| && sorted[j][groupCol] == sorted[i][groupCol]
      invariant i < j <= |sorted|
      invariant forall k :: i <= k < j ==> sorted[k][groupCol] == sorted[i][groupCol]
      decreases |sorted| - j
    {
      j := j + 1;
    }
  }

  /** A maximal run `ls[i..j]` is the first run of `ls[i..]`. */
  lemma RunStep(ls: seq<Value>, i: nat, j: nat, group: Value, part: nat)
    requires i < j <= |ls| && group == ls[i] && part == j - i
    requires forall k :: i <= k < j ==> ls[k] == group
    requires j == |ls| || ls[j] != group
    ensures Runs(ls[i..]) == [(group, part)] + Runs(ls[j..])
  {
    var t := ls[i..];
    LeadingIs(t, group, part);
    assert t[part..] == ls[j..];
    assert t[0] == group;
    assert Runs(t) == [(t[0], Leading(t, t[0]))] + Runs(t[Leading(t, t[0])..]);
  }

  lemma Concat3<T>(a: seq<T>, b: seq<T>, c: seq<T>)
    ensures (a + b) + c == a + (b + c)
  {
  }

  lemma RowsOfSnoc(subject: Subject, rs: seq<(Value, nat)>, x: (Value, nat), whole: nat)
    requires 0 < whole
    ensures RowsOf(subject, rs + [x], whole) == RowsOf(subject, rs, whole) + [Row(subject, x.0, x.1, whole)]
  {
  }

  /** `Leading` is the one length that the run condition fixes. */
  lemma {:induction false} LeadingIs(s: seq<Value>, v: Value, n: nat)
    requires n <= |s|
    requires forall k :: 0 <= k < n ==> s[k] == v
    requires n == |s| || s[n] != v
    ensures Leading(s, v) == n
  {
    if n > 0 {
      LeadingIs(s[1..], v, n - 1);
    }
  }

  /** The sum of `f` over a record list. */
  function Sum(s: seq<Record>, f: Record -> int): int {
    if s == [] then 0 else f(s[0]) + Sum(s[1..], f)
  }

  lemma {:induction false} SumConcat(a: seq<Record>, b: seq<Record>, f: Record -> int)
    ensures Sum(a + b, f) == Sum(a, f) + Sum(b, f)
  {
    if a != [] {
      assert (a + b)[1..] == a[1..] + b;
      SumConcat(a[1..], b, f);
    } else {
      assert a + b == b;
    }
  }

  lemma {:induction false} SumInsert(keys: seq<QueryEngine.SortKey>, x: Record, s: seq<Record>, f: Record -> int)
    requires QueryEngine.AllHaveKeys(s, keys) && QueryEngine.HasKeys(x, keys)
    ensures Sum(QueryEngine.Insert(keys, x, s), f) == f(x) + Sum(s, f)
  {
    if s != [] && QueryEngine.CompareBy(keys, x, s[0]) > 0 {
      var rest := QueryEngine.Insert(keys, x, s[1..]);
      SumInsert(keys, x, s[1..], f);
      assert QueryEngine.Insert(keys, x, s) == [s[0]] + rest;
      assert ([s[0]] + rest)[1..] == rest;
    } else {
      assert QueryEngine.Insert(keys, x, s) == [x] + s;
      assert ([x] + s)[1..] == s;
    }
  }

  /** Sorting rearranges without adding or dropping, so every sum over the list survives it. */
  lemma {:induction false} SumSort(keys: seq<QueryEngine.SortKey>, s: seq<Record>, f: Record -> int)
    requires QueryEngine.AllHaveKeys(s, keys)
    ensures Sum(QueryEngine.Sort(keys, s), f) == Sum(s, f)
  {
    if s != [] {
      SumSort(keys, s[1..], f);
      SumInsert(keys, s[0], QueryEngine.Sort(keys, s[1..]), f);
    }
  }

  /** A sum of non-negative terms is at least the sum of any two of them. */
  lemma {:induction false} SumTwo(s: seq<Record>, f: Record -> int, i: nat, j: nat)
    requires i < j < |s|
    requires forall r :: f(r) >= 0
    ensures Sum(s, f) >= f(s[i]) + f(s[j])
  {
    if i == 0 {
      SumOne(s[1..], f, j - 1);
    } else {
      SumTwo(s[1..], f, i - 1, j - 1);
    }
  }

  lemma {:induction false} SumOne(s: seq<Record>, f: Record -> int, i: nat)
    requires i < |s|
    requires forall r :: f(r) >= 0
    ensures Sum(s, f) >= f(s[i])
  {
    if i > 0 {
      SumOne(s[1..], f, i - 1);
    } else {
      SumNonNegative(s[1..], f);
    }
  }

  lemma {:induction false} SumNonNegative(s: seq<Record>, f: Record -> int)
    requires forall r :: f(r) >= 0
    ensures Sum(s, f) >= 0
  {
    if s != [] {
      SumNonNegative(s[1..], f);
    }
  }
}
