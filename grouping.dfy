/** Grouping adjacent equal labels, as `itertools.groupby` does over the sorted certified records
    (src/h1b_counting.py:187-191, 244-249), and the counting facts the reports rest on. */
module Grouping {
  import opened Records

  /** The cells of column `col`, record by record. */
  function Labels(s: seq<Record>, col: string): (ls: seq<Value>)
    requires forall i :: 0 <= i < |s| ==> col in s[i]
    ensures |ls| == |s| && forall i :: 0 <= i < |s| ==> ls[i] == s[i][col]
  {
    if s == [] then [] else [s[0][col]] + Labels(s[1..], col)
  }

  /** The number of leading elements of `s` equal to `v`. */
  function Leading(s: seq<Value>, v: Value): (n: nat)
    ensures n <= |s|
    ensures forall k :: 0 <= k < n ==> s[k] == v
    ensures n < |s| ==> s[n] != v
  {
    if s == [] || s[0] != v then 0 else 1 + Leading(s[1..], v)
  }

  /** The maximal runs of equal adjacent labels, each as (label, run length), in order. */
  function Runs(ls: seq<Value>): (rs: seq<(Value, nat)>)
    ensures forall k :: 0 <= k < |rs| ==> rs[k].1 >= 1 && rs[k].0 in ls
    ensures |rs| <= |ls|
    ensures rs == [] <==> ls == []
    decreases |ls|
  {
    if ls == [] then []
    else
      var n := Leading(ls, ls[0]);
      var rest := Runs(ls[n..]);
      assert forall v :: v in ls[n..] ==> v in ls;
      [(ls[0], n)] + rest
  }

  /** How many elements of `ls` equal `v`. */
  function Count(ls: seq<Value>, v: Value): (n: nat)
    ensures n <= |ls|
  {
    if ls == [] then 0 else (if ls[0] == v then 1 else 0) + Count(ls[1..], v)
  }

  /** The sum of the run lengths. */
  function Total(rs: seq<(Value, nat)>): nat {
    if rs == [] then 0 else rs[0].1 + Total(rs[1..])
  }

  predicate NonDecreasing(ls: seq<Value>) {
    forall i, j :: 0 <= i < j < |ls| ==> CompareValues(ls[i], ls[j]) <= 0
  }

  lemma {:induction false} CountConcat(a: seq<Value>, b: seq<Value>, v: Value)
    ensures Count(a + b, v) == Count(a, v) + Count(b, v)
  {
    if a != [] {
      assert (a + b)[1..] == a[1..] + b;
      CountConcat(a[1..], b, v);
    } else {
      assert a + b == b;
    }
  }

  lemma {:induction false} CountAbsent(ls: seq<Value>, v: Value)
    requires v !in ls
    ensures Count(ls, v) == 0
  {
    if ls != [] {
      CountAbsent(ls[1..], v);
    }
  }

  lemma {:induction false} CountPresent(ls: seq<Value>, v: Value)
    requires v in ls
    ensures Count(ls, v) > 0
  {
    if ls[0] != v {
      CountPresent(ls[1..], v);
    }
  }

  /** Every element lies in exactly one run, so the run lengths add up to the number of labels:
      the counts of an unlimited report sum to the number of certified records. */
  lemma {:induction false} RunsTotal(ls: seq<Value>)
    ensures Total(Runs(ls)) == |ls|
    decreases |ls|
  {
    if ls != [] {
      var n := Leading(ls, ls[0]);
      RunsTotal(ls[n..]);
      assert Runs(ls)[1..] == Runs(ls[n..]);
    }
  }

  /** In a non-decreasing list, everything after the first run is strictly greater than its label. */
  lemma {:induction false} AfterFirstRun(ls: seq<Value>, n: nat)
    requires NonDecreasing(ls) && ls != [] && n == Leading(ls, ls[0])
    ensures forall k :: n <= k < |ls| ==> CompareValues(ls[0], ls[k]) < 0
  {
    forall k | n <= k < |ls|
      ensures CompareValues(ls[0], ls[k]) < 0
    {
      CompareValuesZero(ls[0], ls[n]);
      CompareValuesZero(ls[0], ls[k]);
      CompareValuesAntisymmetric(ls[0], ls[n]);
      CompareValuesAntisymmetric(ls[n], ls[k]);
      if k > n {
        CompareValuesTransitive(ls[0], ls[n], ls[k]);
        CompareValuesAntisymmetric(ls[0], ls[k]);
      }
    }
  }

  /** What the first run of a list leaves behind, and how the labels split between them. */
  lemma {:induction false} FirstRunSplit(ls: seq<Value>)
    requires ls != []
    ensures var n := Leading(ls, ls[0]);
      && 1 <= n
      && Runs(ls) == [(ls[0], n)] + Runs(ls[n..])
      && Count(ls, ls[0]) == n + Count(ls[n..], ls[0])
      && (forall w :: w != ls[0] ==> Count(ls, w) == Count(ls[n..], w))
      && (forall v :: v in ls ==> v == ls[0] || v in ls[n..])
  {
    var v0 := ls[0];
    var n := Leading(ls, v0);
    var tail := ls[n..];
    assert ls == ls[..n] + tail;
    CountConcat(ls[..n], tail, v0);
    CountAll(ls[..n], v0);
    forall w | w != v0
      ensures Count(ls, w) == Count(tail, w)
    {
      CountConcat(ls[..n], tail, w);
      CountAbsent(ls[..n], w);
    }
    forall v | v in ls
      ensures v == v0 || v in tail
    {
      var i :| 0 <= i < |ls| && ls[i] == v;
      if i >= n {
        assert tail[i - n] == v;
      }
    }
  }

  /** In a non-decreasing list, what follows the first run is non-decreasing and lies strictly
      above the first run's label. */
  lemma {:induction false} FirstRunSorted(ls: seq<Value>)
    requires NonDecreasing(ls) && ls != []
    ensures var n := Leading(ls, ls[0]);
      && NonDecreasing(ls[n..])
      && (forall v :: v in ls[n..] ==> CompareValues(ls[0], v) < 0 && v != ls[0])
  {
    var v0 := ls[0];
    var n := Leading(ls, v0);
    var tail := ls[n..];
    forall i, j | 0 <= i < j < |tail|
      ensures CompareValues(tail[i], tail[j]) <= 0
    {
      assert tail[i] == ls[n + i] && tail[j] == ls[n + j];
    }
    AfterFirstRun(ls, n);
    forall v | v in tail
      ensures CompareValues(v0, v) < 0 && v != v0
    {
      var i :| 0 <= i < |tail| && tail[i] == v;
      assert tail[i] == ls[n + i];
      CompareValuesZero(v0, v);
    }
  }

  /** groupby over a sorted list: each run is as long as the number of times its label occurs. */
  lemma {:induction false} RunsCount(ls: seq<Value>)
    requires NonDecreasing(ls)
    ensures forall k :: 0 <= k < |Runs(ls)| ==> Runs(ls)[k].1 == Count(ls, Runs(ls)[k].0)
    decreases |ls|
  {
    if ls != [] {
      FirstRunSplit(ls);
      FirstRunSorted(ls);
      var n := Leading(ls, ls[0]);
      CountAbsent(ls[n..], ls[0]);
      RunsCount(ls[n..]);
    }
  }

  /** groupby over a sorted list: the run labels strictly increase, so no label has two runs. */
  lemma {:induction false} RunsIncreasing(ls: seq<Value>)
    requires NonDecreasing(ls)
    ensures forall k, m :: 0 <= k < m < |Runs(ls)| ==> CompareValues(Runs(ls)[k].0, Runs(ls)[m].0) < 0
    decreases |ls|
  {
    if ls != [] {
      FirstRunSplit(ls);
      FirstRunSorted(ls);
      var n := Leading(ls, ls[0]);
      RunsIncreasing(ls[n..]);
    }
  }

  /** Every label has a run. */
  lemma {:induction false} RunsCover(ls: seq<Value>)
    ensures forall v :: v in ls ==> exists k :: 0 <= k < |Runs(ls)| && Runs(ls)[k].0 == v
    decreases |ls|
  {
    if ls != [] {
      var n := Leading(ls, ls[0]);
      var rest := Runs(ls[n..]);
      RunsCover(ls[n..]);
      assert Runs(ls) == [(ls[0], n)] + rest;
      forall v | v in ls
        ensures exists k :: 0 <= k < |Runs(ls)| && Runs(ls)[k].0 == v
      {
        if v == ls[0] {
          assert Runs(ls)[0].0 == v;
        } else {
          var i :| 0 <= i < |ls| && ls[i] == v;
          assert i >= n;
          assert ls[n..][i - n] == v;
          assert v in ls[n..];
          var k :| 0 <= k < |rest| && rest[k].0 == v;
          assert Runs(ls)[k + 1].0 == v;
        }
      }
    }
  }

  lemma {:induction false} CountAll(ls: seq<Value>, v: Value)
    requires forall i :: 0 <= i < |ls| ==> ls[i] == v
    ensures Count(ls, v) == |ls|
  {
    if ls != [] {
      CountAll(ls[1..], v);
    }
  }
}
