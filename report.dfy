/** What `get_top_occupations` (src/h1b_counting.py:139-198) and `get_top_states` (200-256)
    compute once their columns are reconciled: the certified records, sorted by label, counted
    run by run, ranked by count, cut to the first `count` rows. The functions here are the
    specification; the lemmas state what a report means in terms of the input records. */
module Reports {
  import opened Wrappers
  import opened Records
  import opened Grouping
  import opened Aggregate
  import opened QueryEngine
  import Sequences
  import Strings

  const CERTIFIED: Value := Str("CERTIFIED")

  /** The filter of lines 182-184 and 240-241: the status column reads `CERTIFIED` and none of the
      `required` columns is empty. */
  datatype Criterion = Criterion(status: string, required: seq<string>)

  predicate Accepts(crit: Criterion, r: Record)
    ensures Accepts(crit, r) ==>
      crit.status in r && forall k :: 0 <= k < |crit.required| ==> crit.required[k] in r
  {
    && Cell(r, crit.status) == CERTIFIED
    && forall k :: 0 <= k < |crit.required| ==> !Empty(Cell(r, crit.required[k]))
  }

  /** The filter as the function value handed to `query_load`. */
  function Filter(crit: Criterion): Record -> bool {
    r => Accepts(crit, r)
  }

  /** The certified records, cut down to the case number and the label column: the list that
      the first `query_load` call sorts. */
  function Certified(data: seq<Record>, crit: Criterion, caseCol: string, groupCol: string): seq<Record> {
    Selected(data, Some(Filter(crit)), Some([caseCol, groupCol]))
  }

  /** The full ranking: lines 182-194 (occupations) and 240-252 (states). */
  function Ranked(subject: Subject, data: seq<Record>, crit: Criterion, caseCol: string, groupCol: string)
    : (r: Result<seq<Record>, QueryError>)
    ensures r.Success? ==> |r.value| <= |data|
  {
    var sorted :- Query(data, Some(Filter(crit)), Some([caseCol, groupCol]), Some([groupCol]), None);
    HaveLabel(sorted, groupCol);
    var grouped := Groups(subject, sorted, groupCol);
    Query(grouped, None, None, Some([COUNT_HEADER, subject.LabelHeader()]), Some(["Descending", "Ascending"]))
  }

  lemma HaveLabel(s: seq<Record>, groupCol: string)
    requires AllHaveKeys(s, GroupKeys(groupCol))
    ensures forall i :: 0 <= i < |s| ==> groupCol in s[i]
  {
    GroupKeysAre(groupCol);
  }

  /** A report of at most `count` rows: the head of the ranking, as `sorted_data[:count]`. */
  function Report(count: int, subject: Subject, data: seq<Record>, crit: Criterion, caseCol: string, groupCol: string)
    : (r: Result<seq<Record>, QueryError>)
    ensures r.Success? && 0 <= count ==> |r.value| <= count
    ensures r.Success? ==> |r.value| <= |data|
  {
    var ranked := Ranked(subject, data, crit, caseCol, groupCol);
    if ranked.Failure? then Failure(ranked.error) else Success(Take(ranked.value, count))
  }

  /** Python's `s[:count]`: a negative `count` drops that many elements from the end. */
  function Take<T>(s: seq<T>, count: int): (r: seq<T>)
    ensures |r| <= |s| && r == s[..|r|]
    ensures 0 <= count ==> |r| == if count < |s| then count else |s|
    ensures count < 0 ==> |r| == if |s| + count < 0 then 0 else |s| + count
  {
    if 0 <= count then (if count < |s| then s[..count] else s)
    else if |s| + count < 0 then [] else s[..|s| + count]
  }

  /** The keys of the ranking sort, lines 193-194 and 251-252. */
  function RankKeys(subject: Subject): seq<SortKey> {
    KeysOf([COUNT_HEADER, subject.LabelHeader()], Some(["Descending", "Ascending"]))
  }

  /** The key of the grouping sort, lines 185 and 242. */
  function GroupKeys(groupCol: string): seq<SortKey> {
    KeysOf([groupCol], None)
  }

  /** The ranking is by count, largest first, then by label in ascending order: the column names
      of lines 193-194 carry no surrounding white space for `strip` to remove. */
  lemma RankKeysAre(subject: Subject)
    ensures RankKeys(subject) == [SortKey(COUNT_HEADER, true), SortKey(subject.LabelHeader(), false)]
  {
    HeadersStripped(subject);
    KeysOfTwo(COUNT_HEADER, subject.LabelHeader(), "Descending", "Ascending");
  }

  lemma GroupKeysAre(groupCol: string)
    ensures |GroupKeys(groupCol)| == 1 && GroupKeys(groupCol)[0] == SortKey(groupCol, false)
  {
  }

  lemma HeadersStripped(subject: Subject)
    ensures Strings.Strip(COUNT_HEADER) == COUNT_HEADER
    ensures Strings.Strip(subject.LabelHeader()) == subject.LabelHeader()
  {
    assert COUNT_HEADER[0] == 'N';
    Strings.StripUnchanged(COUNT_HEADER);
    Strings.StripUnchanged(subject.LabelHeader());
  }

  /** An accepted record holds every required column, the label column among them, and keeps it
      through the projection. */
  lemma CertifiedHaveLabel(data: seq<Record>, crit: Criterion, caseCol: string, groupCol: string)
    requires groupCol in crit.required
    ensures AllHaveKeys(Certified(data, crit, caseCol, groupCol), GroupKeys(groupCol))
  {
    GroupKeysAre(groupCol);
    var kept := Select(data, Some(Filter(crit)));
    var c := Certified(data, crit, caseCol, groupCol);
    forall i | 0 <= i < |c|
      ensures groupCol in c[i]
    {
      var r := kept[i];
      assert r in kept;
      assert Accepts(crit, r);
      var k :| 0 <= k < |crit.required| && crit.required[k] == groupCol;
      assert !Empty(Cell(r, crit.required[k]));
      assert c[i] == Project(r, [caseCol, groupCol]);
    }
  }

  lemma RowsHaveRankKeys(subject: Subject, rows: seq<Record>)
    requires forall i :: 0 <= i < |rows| ==> rows[i].Keys == {subject.LabelHeader(), COUNT_HEADER, PERCENT_HEADER}
    ensures AllHaveKeys(rows, RankKeys(subject))
  {
    RankKeysAre(subject);
  }

  /** The certified records sorted by label: the first `query_load` call of a report. */
  function SortedCertified(data: seq<Record>, crit: Criterion, caseCol: string, groupCol: string): (s: seq<Record>)
    requires groupCol in crit.required
    ensures forall i :: 0 <= i < |s| ==> groupCol in s[i]
  {
    CertifiedHaveLabel(data, crit, caseCol, groupCol);
    var s := Sort(GroupKeys(groupCol), Certified(data, crit, caseCol, groupCol));
    HaveLabel(s, groupCol);
    s
  }

  /** The rows of a report before ranking, one per label in label order. */
  function GroupRows(subject: Subject, data: seq<Record>, crit: Criterion, caseCol: string, groupCol: string): seq<Record>
    requires groupCol in crit.required
  {
    Groups(subject, SortedCertified(data, crit, caseCol, groupCol), groupCol)
  }

  /** Both `query_load` calls of a report succeed, and each is the stable sort of its input. */
  lemma RankedUnfold(subject: Subject, data: seq<Record>, crit: Criterion, caseCol: string, groupCol: string)
    requires groupCol in crit.required
    ensures AllHaveKeys(Certified(data, crit, caseCol, groupCol), GroupKeys(groupCol))
    ensures AllHaveKeys(GroupRows(subject, data, crit, caseCol, groupCol), RankKeys(subject))
    ensures Ranked(subject, data, crit, caseCol, groupCol)
         == Success(Sort(RankKeys(subject), GroupRows(subject, data, crit, caseCol, groupCol)))
  {
    CertifiedHaveLabel(data, crit, caseCol, groupCol);
    var c := Certified(data, crit, caseCol, groupCol);
    var s := SortedCertified(data, crit, caseCol, groupCol);
    assert Query(data, Some(Filter(crit)), Some([caseCol, groupCol]), Some([groupCol]), None) == Success(s);
    var g := GroupRows(subject, data, crit, caseCol, groupCol);
    RowsHaveRankKeys(subject, g);
    assert Query(g, None, None, Some([COUNT_HEADER, subject.LabelHeader()]), Some(["Descending", "Ascending"]))
        == Success(Sort(RankKeys(subject), g));
  }

  /** 1 for a record whose `col` cell holds `v`, 0 for any other: summed, the number of such records. */
  function Tally(col: string, v: Value): Record -> int {
    r => if Cell(r, col) == v then 1 else 0
  }

  /** 1 for an input record the filter accepts whose `col` cell holds `v`. */
  function CertifiedWith(crit: Criterion, col: string, v: Value): Record -> int {
    r => if Accepts(crit, r) && Cell(r, col) == v then 1 else 0
  }

  /** 1 for an input record the filter accepts. */
  function CertifiedIn(crit: Criterion): Record -> int {
    r => if Accepts(crit, r) then 1 else 0
  }

  /** The count a report row holds. */
  function CountCell(r: Record): int {
    match Cell(r, COUNT_HEADER)
    case Num(n) => n
    case Str(_) => 0
  }

  /** A row of the report on `subject`: its label, the number of certified input records with
      that label, at least one, and that number's percentage of all certified records. */
  predicate RowFor(subject: Subject, row: Record, data: seq<Record>, crit: Criterion, groupCol: string) {
    var name := subject.LabelHeader();
    && row.Keys == {name, COUNT_HEADER, PERCENT_HEADER}
    && row[COUNT_HEADER] == Num(Sum(data, CertifiedWith(crit, groupCol, row[name])))
    && 1 <= row[COUNT_HEADER].n
    && row[PERCENT_HEADER].Num?
    && Percentage(row[COUNT_HEADER].n, NumberCertified(data, crit)) == Success(row[PERCENT_HEADER].n)
  }

  lemma HeadersDistinct(subject: Subject)
    ensures subject.LabelHeader() != COUNT_HEADER && subject.LabelHeader() != PERCENT_HEADER
    ensures COUNT_HEADER != PERCENT_HEADER
  {
    var h := Headers(subject);
  }

  lemma RowCells(subject: Subject, v: Value, n: nat, whole: nat)
    requires 0 < whole
    ensures Row(subject, v, n, whole)[subject.LabelHeader()] == v
    ensures Row(subject, v, n, whole)[COUNT_HEADER] == Num(n)
    ensures Row(subject, v, n, whole)[PERCENT_HEADER] == Num(Percentage(n, whole).value)
  {
    HeadersDistinct(subject);
  }

  lemma {:induction false} ProjectAllConcat(a: seq<Record>, b: seq<Record>, cols: seq<string>)
    ensures ProjectAll(a + b, cols) == ProjectAll(a, cols) + ProjectAll(b, cols)
  {
    var l, r := ProjectAll(a + b, cols), ProjectAll(a, cols) + ProjectAll(b, cols);
    assert |l| == |r|;
    forall i | 0 <= i < |l|
      ensures l[i] == r[i]
    {
      if i < |a| {
        assert (a + b)[i] == a[i];
      } else {
        assert (a + b)[i] == b[i - |a|];
      }
    }
  }

  /** Counting the projected certified records by label is counting the input records. */
  lemma {:induction false} SumCertified(data: seq<Record>, crit: Criterion, cols: seq<string>, g: string, v: Value)
    requires g in cols
    ensures Sum(ProjectAll(Sequences.Keep(data, Filter(crit)), cols), Tally(g, v)) == Sum(data, CertifiedWith(crit, g, v))
  {
    if data != [] {
      var p := Filter(crit);
      var x := data[0];
      var head: seq<Record> := if p(x) then [x] else [];
      var rest := Sequences.Keep(data[1..], p);
      assert Sequences.Keep(data, p) == head + rest;
      ProjectAllConcat(head, rest, cols);
      SumConcat(ProjectAll(head, cols), ProjectAll(rest, cols), Tally(g, v));
      SumCertified(data[1..], crit, cols, g, v);
      HeadTally(x, crit, cols, g, v);
    }
  }

  lemma HeadTally(x: Record, crit: Criterion, cols: seq<string>, g: string, v: Value)
    requires g in cols
    ensures Sum(ProjectAll(if Filter(crit)(x) then [x] else [], cols), Tally(g, v)) == CertifiedWith(crit, g, v)(x)
  {
    if Filter(crit)(x) {
      var px := Project(x, cols);
      assert ProjectAll([x], cols) == [px];
      assert Cell(px, g) == Cell(x, g);
      assert [px][1..] == [];
    }
  }

  /** The number of input records the filter accepts. */
  function NumberCertified(data: seq<Record>, crit: Criterion): nat {
    |Sequences.Keep(data, Filter(crit))|
  }

  lemma {:induction false} NumberCertifiedSum(data: seq<Record>, crit: Criterion)
    ensures NumberCertified(data, crit) == Sum(data, CertifiedIn(crit))
  {
    if data != [] {
      var p := Filter(crit);
      var head: seq<Record> := if p(data[0]) then [data[0]] else [];
      assert Sequences.Keep(data, p) == head + Sequences.Keep(data[1..], p);
      NumberCertifiedSum(data[1..], crit);
    }
  }

  lemma {:induction false} LabelsTally(s: seq<Record>, g: string, v: Value)
    requires forall i :: 0 <= i < |s| ==> g in s[i]
    ensures Count(Labels(s, g), v) == Sum(s, Tally(g, v))
  {
    if s != [] {
      LabelsTally(s[1..], g, v);
      assert Labels(s, g)[1..] == Labels(s[1..], g);
    }
  }

  lemma CompareByOne(keys: seq<SortKey>, a: Record, b: Record)
    requires |keys| == 1 && !keys[0].descending && HasKeys(a, keys) && HasKeys(b, keys)
    ensures CompareBy(keys, a, b) == CompareValues(a[keys[0].column], b[keys[0].column])
  {
    assert keys[1..] == [];
  }

  /** The first sort puts the certified records in label order. */
  lemma SortedLabels(data: seq<Record>, crit: Criterion, caseCol: string, groupCol: string)
    requires groupCol in crit.required
    ensures NonDecreasing(Labels(SortedCertified(data, crit, caseCol, groupCol), groupCol))
  {
    CertifiedHaveLabel(data, crit, caseCol, groupCol);
    var gk := GroupKeys(groupCol);
    var c := Certified(data, crit, caseCol, groupCol);
    var s := SortedCertified(data, crit, caseCol, groupCol);
    SortSorted(gk, c);
    GroupKeysAre(groupCol);
    var ls := Labels(s, groupCol);
    forall i, j | 0 <= i < j < |ls|
      ensures CompareValues(ls[i], ls[j]) <= 0
    {
      assert CompareBy(gk, s[i], s[j]) <= 0;
      CompareByOne(gk, s[i], s[j]);
    }
  }

  /** Before ranking, there is one row per label, in strictly increasing label order, and each
      holds its label's number of certified records and their share. */
  lemma GroupRowsFacts(subject: Subject, data: seq<Record>, crit: Criterion, caseCol: string, groupCol: string)
    requires groupCol in crit.required
    ensures var g := GroupRows(subject, data, crit, caseCol, groupCol);
      && (forall k :: 0 <= k < |g| ==> RowFor(subject, g[k], data, crit, groupCol))
      && IncreasingLabels(g, subject.LabelHeader())
  {
    CertifiedHaveLabel(data, crit, caseCol, groupCol);
    var c := Certified(data, crit, caseCol, groupCol);
    var s := SortedCertified(data, crit, caseCol, groupCol);
    var ls := Labels(s, groupCol);
    var rs := Runs(ls);
    var g := GroupRows(subject, data, crit, caseCol, groupCol);
    assert g == RowsOf(subject, rs, |s|);
    assert |s| == NumberCertified(data, crit);
    SortedLabels(data, crit, caseCol, groupCol);
    RunsCount(ls);
    RunsIncreasing(ls);
    forall k | 0 <= k < |g|
      ensures RowFor(subject, g[k], data, crit, groupCol)
    {
      var v, n := rs[k].0, rs[k].1;
      RowCells(subject, v, n, |s|);
      LabelsTally(s, groupCol, v);
      SumSort(GroupKeys(groupCol), c, Tally(groupCol, v));
      SumCertified(data, crit, [caseCol, groupCol], groupCol, v);
    }
    forall k, m | 0 <= k < m < |g|
      ensures CompareValues(Cell(g[k], subject.LabelHeader()), Cell(g[m], subject.LabelHeader())) < 0
    {
      RowCells(subject, rs[k].0, rs[k].1, |s|);
      RowCells(subject, rs[m].0, rs[m].1, |s|);
    }
  }

  predicate IncreasingLabels(rows: seq<Record>, name: string) {
    forall k, m :: 0 <= k < m < |rows| ==> CompareValues(Cell(rows[k], name), Cell(rows[m], name)) < 0
  }

  /** `a` comes before `b` in a ranking: a larger count, or the same count and a smaller label. */
  predicate RanksBefore(subject: Subject, a: Record, b: Record) {
    || CountCell(a) > CountCell(b)
    || (CountCell(a) == CountCell(b) && CompareValues(Cell(a, subject.LabelHeader()), Cell(b, subject.LabelHeader())) < 0)
  }

  /** Every row of the ranking is the row of one label: the number of certified input records
      with that label, and its percentage of all certified records. */
  lemma RankedRows(subject: Subject, data: seq<Record>, crit: Criterion, caseCol: string, groupCol: string)
    requires groupCol in crit.required
    ensures var r := Ranked(subject, data, crit, caseCol, groupCol);
      && r.Success?
      && forall i :: 0 <= i < |r.value| ==> RowFor(subject, r.value[i], data, crit, groupCol)
  {
    RankedUnfold(subject, data, crit, caseCol, groupCol);
    GroupRowsFacts(subject, data, crit, caseCol, groupCol);
    var g := GroupRows(subject, data, crit, caseCol, groupCol);
    var r := Ranked(subject, data, crit, caseCol, groupCol).value;
    forall i | 0 <= i < |r|
      ensures RowFor(subject, r[i], data, crit, groupCol)
    {
      assert r[i] in multiset(r);
      var k :| 0 <= k < |g| && g[k] == r[i];
    }
  }

  /** The ranking has at most one row per label. */
  lemma RankedDistinct(subject: Subject, data: seq<Record>, crit: Criterion, caseCol: string, groupCol: string)
    requires groupCol in crit.required
    ensures var r := Ranked(subject, data, crit, caseCol, groupCol);
      && r.Success?
      && forall i, j :: 0 <= i < j < |r.value| ==>
           Cell(r.value[i], subject.LabelHeader()) != Cell(r.value[j], subject.LabelHeader())
  {
    RankedUnfold(subject, data, crit, caseCol, groupCol);
    GroupRowsFacts(subject, data, crit, caseCol, groupCol);
    var name := subject.LabelHeader();
    var g := GroupRows(subject, data, crit, caseCol, groupCol);
    var r := Ranked(subject, data, crit, caseCol, groupCol).value;
    forall i, j | 0 <= i < j < |r|
      ensures Cell(r[i], name) != Cell(r[j], name)
    {
      var v := Cell(r[i], name);
      var f := Tally(name, v);
      TallyNonNegative(name, v);
      AtMostOneTally(g, name, v);
      SumSort(RankKeys(subject), g, f);
      SumTwo(r, f, i, j);
    }
  }

  lemma TallyNonNegative(name: string, v: Value)
    ensures forall x :: Tally(name, v)(x) >= 0
  {
  }

  lemma {:induction false} AtMostOneTally(rows: seq<Record>, name: string, v: Value)
    requires IncreasingLabels(rows, name)
    ensures Sum(rows, Tally(name, v)) <= 1
  {
    if rows != [] {
      var rest := rows[1..];
      assert IncreasingLabels(rest, name) by {
        forall k, m | 0 <= k < m < |rest|
          ensures CompareValues(Cell(rest[k], name), Cell(rest[m], name)) < 0
        {
          assert rest[k] == rows[k + 1] && rest[m] == rows[m + 1];
        }
      }
      AtMostOneTally(rest, name, v);
      if Cell(rows[0], name) == v {
        forall k | 0 <= k < |rest|
          ensures Tally(name, v)(rest[k]) == 0
        {
          assert rest[k] == rows[k + 1];
          CompareValuesZero(Cell(rows[0], name), Cell(rest[k], name));
        }
        SumZero(rest, Tally(name, v));
      }
    }
  }

  lemma {:induction false} SumZero(s: seq<Record>, f: Record -> int)
    requires forall k :: 0 <= k < |s| ==> f(s[k]) == 0
    ensures Sum(s, f) == 0
  {
    if s != [] {
      SumZero(s[1..], f);
    }
  }

  /** The ranking comparator of lines 193-194 on two report rows (`keys` is `RankKeys(subject)`,
      as `RankKeysAre` shows). */
  lemma CompareByRank(subject: Subject, keys: seq<SortKey>, a: Record, b: Record)
    requires keys == [SortKey(COUNT_HEADER, true), SortKey(subject.LabelHeader(), false)]
    requires COUNT_HEADER in a && subject.LabelHeader() in a && COUNT_HEADER in b && subject.LabelHeader() in b
    requires a[COUNT_HEADER].Num? && b[COUNT_HEADER].Num?
    ensures HasKeys(a, keys) && HasKeys(b, keys)
    ensures CompareBy(keys, a, b) <= 0 <==>
      || CountCell(a) > CountCell(b)
      || (CountCell(a) == CountCell(b) &&
          CompareValues(Cell(a, subject.LabelHeader()), Cell(b, subject.LabelHeader())) <= 0)
  {
    CompareByTwo(keys, COUNT_HEADER, subject.LabelHeader(), a, b);
    CompareCounts(a[COUNT_HEADER], b[COUNT_HEADER]);
  }

  /** Two counts compare as numbers. */
  lemma CompareCounts(x: Value, y: Value)
    requires x.Num? && y.Num?
    ensures CompareValues(x, y) > 0 <==> x.n > y.n
  {
  }

  /** The ranking is by count, largest first, and rows with equal counts are in label order. */
  lemma RankedOrder(subject: Subject, data: seq<Record>, crit: Criterion, caseCol: string, groupCol: string)
    requires groupCol in crit.required
    ensures var r := Ranked(subject, data, crit, caseCol, groupCol);
      && r.Success?
      && forall i, j :: 0 <= i < j < |r.value| ==> RanksBefore(subject, r.value[i], r.value[j])
  {
    RankedUnfold(subject, data, crit, caseCol, groupCol);
    RankedRows(subject, data, crit, caseCol, groupCol);
    RankedDistinct(subject, data, crit, caseCol, groupCol);
    var g := GroupRows(subject, data, crit, caseCol, groupCol);
    var r := Ranked(subject, data, crit, caseCol, groupCol).value;
    SortSorted(RankKeys(subject), g);
    RankKeysAre(subject);
    var name := subject.LabelHeader();
    forall i, j | 0 <= i < j < |r|
      ensures RanksBefore(subject, r[i], r[j])
    {
      assert RowFor(subject, r[i], data, crit, groupCol) && RowFor(subject, r[j], data, crit, groupCol);
      CompareByRank(subject, RankKeys(subject), r[i], r[j]);
      CompareValuesZero(Cell(r[i], name), Cell(r[j], name));
    }
  }

  lemma {:induction false} RowsTotal(subject: Subject, rs: seq<(Value, nat)>, whole: nat)
    requires 0 < whole
    ensures Sum(RowsOf(subject, rs, whole), CountCell) == Total(rs)
  {
    if rs != [] {
      var rows := RowsOf(subject, rs, whole);
      RowCells(subject, rs[0].0, rs[0].1, whole);
      assert rows[1..] == RowsOf(subject, rs[1..], whole);
      RowsTotal(subject, rs[1..], whole);
    }
  }

  /** The counts of the full ranking add up to the number of certified records. */
  lemma RankedTotal(subject: Subject, data: seq<Record>, crit: Criterion, caseCol: string, groupCol: string)
    requires groupCol in crit.required
    ensures var r := Ranked(subject, data, crit, caseCol, groupCol);
      && r.Success?
      && Sum(r.value, CountCell) == NumberCertified(data, crit)
  {
    RankedUnfold(subject, data, crit, caseCol, groupCol);
    var s := SortedCertified(data, crit, caseCol, groupCol);
    var ls := Labels(s, groupCol);
    var g := GroupRows(subject, data, crit, caseCol, groupCol);
    SumSort(RankKeys(subject), g, CountCell);
    RunsTotal(ls);
    if s != [] {
      RowsTotal(subject, Runs(ls), |s|);
    }
  }

  /** Every label of a certified input record has its row in the ranking. */
  lemma RankedCoverage(subject: Subject, data: seq<Record>, crit: Criterion, caseCol: string, groupCol: string)
    requires groupCol in crit.required
    ensures var r := Ranked(subject, data, crit, caseCol, groupCol);
      && r.Success?
      && forall x :: x in data && Accepts(crit, x) ==>
           exists i :: 0 <= i < |r.value| && Cell(r.value[i], subject.LabelHeader()) == Cell(x, groupCol)
  {
    RankedUnfold(subject, data, crit, caseCol, groupCol);
    forall x | x in data && Accepts(crit, x)
      ensures exists i :: (0 <= i < |Ranked(subject, data, crit, caseCol, groupCol).value| &&
        Cell(Ranked(subject, data, crit, caseCol, groupCol).value[i], subject.LabelHeader()) == Cell(x, groupCol))
    {
      AcceptedLabelSorted(data, crit, caseCol, groupCol, x);
      LabelHasRow(subject, data, crit, caseCol, groupCol, Cell(x, groupCol));
    }
  }

  lemma AcceptedLabelSorted(data: seq<Record>, crit: Criterion, caseCol: string, groupCol: string, x: Record)
    requires groupCol in crit.required
    requires x in data && Accepts(crit, x)
    ensures Cell(x, groupCol) in Labels(SortedCertified(data, crit, caseCol, groupCol), groupCol)
  {
    CertifiedHaveLabel(data, crit, caseCol, groupCol);
    var kept := Sequences.Keep(data, Filter(crit));
    var c := Certified(data, crit, caseCol, groupCol);
    var s := SortedCertified(data, crit, caseCol, groupCol);
    var ls := Labels(s, groupCol);
    assert x in kept;
    var k :| 0 <= k < |kept| && kept[k] == x;
    var px := Project(x, [caseCol, groupCol]);
    assert c[k] == px;
    assert px in multiset(s);
    var m :| 0 <= m < |s| && s[m] == px;
    assert ls[m] == Cell(x, groupCol);
  }

  lemma LabelHasRow(subject: Subject, data: seq<Record>, crit: Criterion, caseCol: string, groupCol: string, v: Value)
    requires groupCol in crit.required
    requires v in Labels(SortedCertified(data, crit, caseCol, groupCol), groupCol)
    ensures Ranked(subject, data, crit, caseCol, groupCol).Success?
    ensures exists i :: (0 <= i < |Ranked(subject, data, crit, caseCol, groupCol).value| &&
      Cell(Ranked(subject, data, crit, caseCol, groupCol).value[i], subject.LabelHeader()) == v)
  {
    RankedUnfold(subject, data, crit, caseCol, groupCol);
    var s := SortedCertified(data, crit, caseCol, groupCol);
    var ls := Labels(s, groupCol);
    var rs := Runs(ls);
    var g := GroupRows(subject, data, crit, caseCol, groupCol);
    var r := Ranked(subject, data, crit, caseCol, groupCol).value;
    RunsCover(ls);
    var q :| 0 <= q < |rs| && rs[q].0 == v;
    RowCells(subject, rs[q].0, rs[q].1, |s|);
    assert g[q] in multiset(r);
    var i :| 0 <= i < |r| && r[i] == g[q];
    assert Cell(r[i], subject.LabelHeader()) == v;
  }

  /** The ranking is empty exactly when no input record is certified. */
  lemma RankedEmpty(subject: Subject, data: seq<Record>, crit: Criterion, caseCol: string, groupCol: string)
    requires groupCol in crit.required
    ensures var r := Ranked(subject, data, crit, caseCol, groupCol);
      && r.Success?
      && (r.value == [] <==> forall x :: x in data ==> !Accepts(crit, x))
  {
    RankedCoverage(subject, data, crit, caseCol, groupCol);
    if forall x :: x in data ==> !Accepts(crit, x) {
      NoneCertified(subject, data, crit, caseCol, groupCol);
    }
  }

  lemma NoneCertified(subject: Subject, data: seq<Record>, crit: Criterion, caseCol: string, groupCol: string)
    requires groupCol in crit.required
    requires forall x :: x in data ==> !Accepts(crit, x)
    ensures Ranked(subject, data, crit, caseCol, groupCol) == Success([])
  {
    RankedUnfold(subject, data, crit, caseCol, groupCol);
    Sequences.KeepNone(data, Filter(crit));
    var s := SortedCertified(data, crit, caseCol, groupCol);
    assert |s| == 0;
    assert Labels(s, groupCol) == [];
  }

  /** A report is the head of the ranking: `count` rows, or all of them when there are fewer, and
      none of the rows left out ranks before a row kept. */
  lemma ReportIsTop(count: int, subject: Subject, data: seq<Record>, crit: Criterion, caseCol: string, groupCol: string)
    requires groupCol in crit.required
    ensures var r := Ranked(subject, data, crit, caseCol, groupCol);
      var t := Report(count, subject, data, crit, caseCol, groupCol);
      && r.Success? && t.Success?
      && t.value == r.value[..|t.value|]
      && (0 <= count ==> |t.value| == if count < |r.value| then count else |r.value|)
      && forall i, j :: 0 <= i < |t.value| <= j < |r.value| ==> RanksBefore(subject, r.value[i], r.value[j])
  {
    RankedOrder(subject, data, crit, caseCol, groupCol);
  }
}
