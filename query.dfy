/** The generic filter / project / sort pipeline `query_load` (src/h1b_counting.py:68-116).
    Every step builds a new list, so the model is a function from the input list and the query
    specification to a result. Python's `sorted` is a stable sort; the model sorts by stable
    insertion, and `SortUnique` shows that any sort that is stable yields the same list. */
module QueryEngine {
  import opened Wrappers
  import opened Records
  import Strings
  import Sequences

  /** One column of a multi-key comparison; `descending` reverses that column's order. */
  datatype SortKey = SortKey(column: string, descending: bool)

  datatype QueryError =
    | SortOrderLengthMismatch  // the `ValueError` of line 110
    | MissingSortColumn        // the `KeyError` of a sort-key lookup

  predicate HasKeys(r: Record, keys: seq<SortKey>) {
    forall i :: 0 <= i < |keys| ==> keys[i].column in r
  }

  predicate AllHaveKeys(s: seq<Record>, keys: seq<SortKey>) {
    forall i :: 0 <= i < |s| ==> HasKeys(s[i], keys)
  }

  /** `a` and `b` hold equal cells in every sort column. */
  predicate SameKeys(keys: seq<SortKey>, a: Record, b: Record)
    requires HasKeys(a, keys) && HasKeys(b, keys)
  {
    forall i :: 0 <= i < |keys| ==> a[keys[i].column] == b[keys[i].column]
  }

  /** The comparator of lines 95-106: the first column whose cells differ decides, with its sign
      flipped when that column is descending; 0 when all columns agree. */
  function CompareBy(keys: seq<SortKey>, a: Record, b: Record): (c: int)
    requires HasKeys(a, keys) && HasKeys(b, keys)
    ensures -1 <= c <= 1
  {
    if keys == [] then 0
    else
      var v := CompareValues(a[keys[0].column], b[keys[0].column]);
      var c := if keys[0].descending then -v else v;
      if c != 0 then c else CompareBy(keys[1..], a, b)
  }

  lemma {:induction false} CompareByZero(keys: seq<SortKey>, a: Record, b: Record)
    requires HasKeys(a, keys) && HasKeys(b, keys)
    ensures CompareBy(keys, a, b) == 0 <==> SameKeys(keys, a, b)
  {
    if keys != [] {
      CompareValuesZero(a[keys[0].column], b[keys[0].column]);
      CompareByZero(keys[1..], a, b);
      assert SameKeys(keys[1..], a, b) && a[keys[0].column] == b[keys[0].column] ==> SameKeys(keys, a, b) by {
        if SameKeys(keys[1..], a, b) && a[keys[0].column] == b[keys[0].column] {
          forall i | 0 <= i < |keys|
            ensures a[keys[i].column] == b[keys[i].column]
          {
            if i > 0 {
              assert keys[i] == keys[1..][i - 1];
            }
          }
        }
      }
    }
  }

  lemma {:induction false} CompareByAntisymmetric(keys: seq<SortKey>, a: Record, b: Record)
    requires HasKeys(a, keys) && HasKeys(b, keys)
    ensures CompareBy(keys, a, b) == -CompareBy(keys, b, a)
  {
    if keys != [] {
      CompareValuesAntisymmetric(a[keys[0].column], b[keys[0].column]);
      CompareByAntisymmetric(keys[1..], a, b);
    }
  }

  lemma {:induction false} CompareByTransitive(keys: seq<SortKey>, a: Record, b: Record, c: Record)
    requires HasKeys(a, keys) && HasKeys(b, keys) && HasKeys(c, keys)
    requires CompareBy(keys, a, b) <= 0 && CompareBy(keys, b, c) <= 0
    ensures CompareBy(keys, a, c) <= 0
  {
    if keys != [] {
      var col := keys[0].column;
      CompareValuesZero(a[col], b[col]);
      CompareValuesZero(b[col], c[col]);
      CompareValuesZero(a[col], c[col]);
      CompareValuesAntisymmetric(a[col], b[col]);
      CompareValuesAntisymmetric(b[col], c[col]);
      CompareValuesAntisymmetric(a[col], c[col]);
      if keys[0].descending {
        if CompareValues(c[col], b[col]) <= 0 && CompareValues(b[col], a[col]) <= 0 {
          CompareValuesTransitive(c[col], b[col], a[col]);
        }
      } else {
        if CompareValues(a[col], b[col]) <= 0 && CompareValues(b[col], c[col]) <= 0 {
          CompareValuesTransitive(a[col], b[col], c[col]);
        }
      }
      if a[col] == b[col] && b[col] == c[col] {
        CompareByTransitive(keys[1..], a, b, c);
      }
    }
  }

  /** Records equal on every key are interchangeable for the comparator. */
  lemma {:induction false} SameKeysTransitive(keys: seq<SortKey>, a: Record, b: Record, c: Record)
    requires HasKeys(a, keys) && HasKeys(b, keys) && HasKeys(c, keys)
    requires CompareBy(keys, a, b) == 0
    ensures CompareBy(keys, a, c) == CompareBy(keys, b, c)
  {
    CompareByZero(keys, a, b);
    SameKeysCompare(keys, a, b, c);
  }

  lemma {:induction false} SameKeysCompare(keys: seq<SortKey>, a: Record, b: Record, c: Record)
    requires HasKeys(a, keys) && HasKeys(b, keys) && HasKeys(c, keys)
    requires SameKeys(keys, a, b)
    ensures CompareBy(keys, a, c) == CompareBy(keys, b, c)
  {
    if keys != [] {
      assert a[keys[0].column] == b[keys[0].column];
      assert SameKeys(keys[1..], a, b) by {
        forall i | 0 <= i < |keys[1..]|
          ensures a[keys[1..][i].column] == b[keys[1..][i].column]
        {
          assert keys[1..][i] == keys[i + 1];
        }
      }
      SameKeysCompare(keys[1..], a, b, c);
    }
  }

  /** Every pair in order: the ordering `sorted` establishes. */
  predicate Sorted(keys: seq<SortKey>, s: seq<Record>)
    requires AllHaveKeys(s, keys)
  {
    forall i, j :: 0 <= i < j < |s| ==> CompareBy(keys, s[i], s[j]) <= 0
  }

  /** The records of `s` that tie with `x` on every key, in their order in `s`. A sort is stable
      exactly when it leaves every such list as it was. */
  function Ties(keys: seq<SortKey>, s: seq<Record>, x: Record): (t: seq<Record>)
    requires AllHaveKeys(s, keys) && HasKeys(x, keys)
    ensures |t| <= |s|
    ensures Sequences.IsSubsequence(t, s)
  {
    if s == [] then []
    else
      var rest := Ties(keys, s[1..], x);
      if CompareBy(keys, s[0], x) == 0 then
        assert ([s[0]] + rest)[1..] == rest;
        [s[0]] + rest
      else
        Sequences.SubsequenceOfTail(rest, s);
        rest
  }

  lemma {:induction false} TiesMembers(keys: seq<SortKey>, s: seq<Record>, x: Record, y: Record)
    requires AllHaveKeys(s, keys) && HasKeys(x, keys)
    requires y in Ties(keys, s, x)
    ensures y in s && HasKeys(y, keys) && CompareBy(keys, y, x) == 0
  {
    if s[0] != y || CompareBy(keys, s[0], x) != 0 {
      TiesMembers(keys, s[1..], x, y);
    }
  }

  /** Places `x` in front of the first record it does not exceed, so after every record that
      sorts strictly before it. */
  function Insert(keys: seq<SortKey>, x: Record, s: seq<Record>): (r: seq<Record>)
    requires AllHaveKeys(s, keys) && HasKeys(x, keys)
    ensures |r| == |s| + 1
    ensures multiset(r) == multiset(s) + multiset{x}
    ensures AllHaveKeys(r, keys)
  {
    if s == [] then [x]
    else if CompareBy(keys, x, s[0]) <= 0 then [x] + s
    else
      assert s == [s[0]] + s[1..];
      [s[0]] + Insert(keys, x, s[1..])
  }

  function Sort(keys: seq<SortKey>, s: seq<Record>): (r: seq<Record>)
    requires AllHaveKeys(s, keys)
    ensures |r| == |s|
    ensures multiset(r) == multiset(s)
    ensures AllHaveKeys(r, keys)
  {
    if s == [] then []
    else
      assert s == [s[0]] + s[1..];
      Insert(keys, s[0], Sort(keys, s[1..]))
  }

  lemma {:induction false} SortedCons(keys: seq<SortKey>, y: Record, t: seq<Record>)
    requires AllHaveKeys(t, keys) && HasKeys(y, keys)
    requires Sorted(keys, t)
    requires forall k :: 0 <= k < |t| ==> CompareBy(keys, y, t[k]) <= 0
    ensures AllHaveKeys([y] + t, keys) && Sorted(keys, [y] + t)
  {
    var r := [y] + t;
    forall i, j | 0 <= i < j < |r|
      ensures CompareBy(keys, r[i], r[j]) <= 0
    {
      if i == 0 {
        assert r[j] == t[j - 1];
      } else {
        assert r[i] == t[i - 1] && r[j] == t[j - 1];
      }
    }
  }

  lemma {:induction false} InsertSorted(keys: seq<SortKey>, x: Record, s: seq<Record>)
    requires AllHaveKeys(s, keys) && HasKeys(x, keys)
    requires Sorted(keys, s)
    ensures Sorted(keys, Insert(keys, x, s))
  {
    if s == [] {
    } else if CompareBy(keys, x, s[0]) <= 0 {
      BelowHead(keys, x, s);
      SortedCons(keys, x, s);
    } else {
      SortedTail(keys, s);
      InsertSorted(keys, x, s[1..]);
      HeadBelowInsert(keys, x, s);
      SortedCons(keys, s[0], Insert(keys, x, s[1..]));
    }
  }

  /** A record that does not exceed the head of a sorted list exceeds none of it. */
  lemma BelowHead(keys: seq<SortKey>, x: Record, s: seq<Record>)
    requires AllHaveKeys(s, keys) && HasKeys(x, keys) && s != []
    requires Sorted(keys, s) && CompareBy(keys, x, s[0]) <= 0
    ensures forall k :: 0 <= k < |s| ==> CompareBy(keys, x, s[k]) <= 0
  {
    forall k | 0 < k < |s|
      ensures CompareBy(keys, x, s[k]) <= 0
    {
      CompareByTransitive(keys, x, s[0], s[k]);
    }
  }

  /** The head of a sorted list sorts before everything `x` is inserted among when `x` exceeds it. */
  lemma HeadBelowInsert(keys: seq<SortKey>, x: Record, s: seq<Record>)
    requires AllHaveKeys(s, keys) && HasKeys(x, keys) && s != []
    requires Sorted(keys, s) && CompareBy(keys, x, s[0]) > 0
    ensures AllHaveKeys(s[1..], keys)
    ensures forall k :: 0 <= k < |s| ==> HasKeys(Insert(keys, x, s[1..])[k], keys)
    ensures forall k :: 0 <= k < |s| ==> CompareBy(keys, s[0], Insert(keys, x, s[1..])[k]) <= 0
  {
    var tail := s[1..];
    var rest := Insert(keys, x, tail);
    CompareByAntisymmetric(keys, x, s[0]);
    forall k | 0 <= k < |rest|
      ensures CompareBy(keys, s[0], rest[k]) <= 0
    {
      var y := rest[k];
      assert y in multiset(rest);
      if y != x {
        assert y in multiset(tail);
        var m :| 0 <= m < |tail| && tail[m] == y;
        assert s[m + 1] == y;
      }
    }
  }

  lemma {:induction false} SortSorted(keys: seq<SortKey>, s: seq<Record>)
    requires AllHaveKeys(s, keys)
    ensures Sorted(keys, Sort(keys, s))
  {
    if s != [] {
      SortSorted(keys, s[1..]);
      InsertSorted(keys, s[0], Sort(keys, s[1..]));
    }
  }

  lemma {:induction false} InsertTies(keys: seq<SortKey>, e: Record, s: seq<Record>, x: Record)
    requires AllHaveKeys(s, keys) && HasKeys(e, keys) && HasKeys(x, keys)
    ensures Ties(keys, Insert(keys, e, s), x)
         == (if CompareBy(keys, e, x) == 0 then [e] else []) + Ties(keys, s, x)
  {
    var own := if CompareBy(keys, e, x) == 0 then [e] else [];
    if s == [] {
      assert Ties(keys, [e], x) == own + Ties(keys, [e][1..], x);
    } else if CompareBy(keys, e, s[0]) <= 0 {
      var r := [e] + s;
      assert r[0] == e && r[1..] == s;
      assert Ties(keys, r, x) == own + Ties(keys, r[1..], x);
    } else {
      var rest := Insert(keys, e, s[1..]);
      InsertTies(keys, e, s[1..], x);
      InsertTiesPast(keys, e, s, rest, x);
    }
  }

  /** The step of `InsertTies` where `e` goes past the first record of `s`. */
  lemma {:induction false} InsertTiesPast(keys: seq<SortKey>, e: Record, s: seq<Record>, rest: seq<Record>, x: Record)
    requires AllHaveKeys(s, keys) && AllHaveKeys(rest, keys) && HasKeys(e, keys) && HasKeys(x, keys)
    requires s != [] && CompareBy(keys, e, s[0]) > 0
    requires Ties(keys, rest, x) == (if CompareBy(keys, e, x) == 0 then [e] else []) + Ties(keys, s[1..], x)
    ensures AllHaveKeys([s[0]] + rest, keys)
    ensures Ties(keys, [s[0]] + rest, x)
         == (if CompareBy(keys, e, x) == 0 then [e] else []) + Ties(keys, s, x)
  {
    var r := [s[0]] + rest;
    var own := if CompareBy(keys, e, x) == 0 then [e] else [];
    var head := if CompareBy(keys, s[0], x) == 0 then [s[0]] else [];
    assert Ties(keys, r, x) == head + Ties(keys, rest, x) by {
      assert r[0] == s[0] && r[1..] == rest;
    }
    assert Ties(keys, s, x) == head + Ties(keys, s[1..], x);
    if CompareBy(keys, e, x) == 0 {
      // s[0] sorts strictly before e, which ties with x, so s[0] does not tie with x
      assert head == [] by {
        SameKeysTransitive(keys, e, x, s[0]);
        CompareByAntisymmetric(keys, x, s[0]);
      }
    } else {
      assert own == [];
    }
  }

  lemma {:induction false} SortStable(keys: seq<SortKey>, s: seq<Record>, x: Record)
    requires AllHaveKeys(s, keys) && HasKeys(x, keys)
    ensures Ties(keys, Sort(keys, s), x) == Ties(keys, s, x)
  {
    if s != [] {
      SortStable(keys, s[1..], x);
      InsertTies(keys, s[0], Sort(keys, s[1..]), x);
    }
  }

  lemma {:induction false} TiesOfHead(keys: seq<SortKey>, s: seq<Record>)
    requires AllHaveKeys(s, keys) && s != []
    ensures Ties(keys, s, s[0]) != [] && Ties(keys, s, s[0])[0] == s[0]
  {
    CompareByZero(keys, s[0], s[0]);
  }

  lemma {:induction false} SortedTail(keys: seq<SortKey>, s: seq<Record>)
    requires AllHaveKeys(s, keys) && s != [] && Sorted(keys, s)
    ensures AllHaveKeys(s[1..], keys) && Sorted(keys, s[1..])
  {
    var t := s[1..];
    forall i, j | 0 <= i < j < |t|
      ensures CompareBy(keys, t[i], t[j]) <= 0
    {
      assert t[i] == s[i + 1] && t[j] == s[j + 1];
    }
  }

  /** Sorted lists with the same tie classes start with the same record. */
  lemma {:induction false} SortedSameHead(keys: seq<SortKey>, p: seq<Record>, q: seq<Record>)
    requires AllHaveKeys(p, keys) && AllHaveKeys(q, keys) && p != [] && q != []
    requires Sorted(keys, p) && Sorted(keys, q)
    requires Ties(keys, p, q[0]) == Ties(keys, q, q[0])
    requires Ties(keys, p, p[0]) == Ties(keys, q, p[0])
    ensures p[0] == q[0]
  {
    var p0, q0 := p[0], q[0];
    TiesOfHead(keys, p);
    TiesOfHead(keys, q);
    TiesMembers(keys, p, q0, Ties(keys, q, q0)[0]);
    var i :| 0 <= i < |p| && p[i] == q0;
    TiesMembers(keys, q, p0, Ties(keys, p, p0)[0]);
    var j :| 0 <= j < |q| && q[j] == p0;
    assert CompareBy(keys, p0, q0) <= 0 by {
      if i == 0 { CompareByZero(keys, p0, p0); }
    }
    assert CompareBy(keys, q0, p0) <= 0 by {
      if j == 0 { CompareByZero(keys, q0, q0); }
    }
    CompareByAntisymmetric(keys, p0, q0);
    assert Ties(keys, q, p0) == [q0] + Ties(keys, q[1..], p0);
  }

  /** Two sorted lists in which every class of tied records appears in the same order are equal. */
  lemma {:induction false} SortedTiesDetermine(keys: seq<SortKey>, p: seq<Record>, q: seq<Record>)
    requires AllHaveKeys(p, keys) && AllHaveKeys(q, keys)
    requires Sorted(keys, p) && Sorted(keys, q)
    requires forall x :: HasKeys(x, keys) ==> Ties(keys, p, x) == Ties(keys, q, x)
    ensures p == q
    decreases |p| + |q|
  {
    assert q != [] ==> p != [] by {
      if q != [] {
        TiesOfHead(keys, q);
        assert Ties(keys, p, q[0]) == Ties(keys, q, q[0]);
      }
    }
    assert p != [] ==> q != [] by {
      if p != [] {
        TiesOfHead(keys, p);
        assert Ties(keys, q, p[0]) == Ties(keys, p, p[0]);
      }
    }
    if p != [] {
      assert Ties(keys, p, q[0]) == Ties(keys, q, q[0]);
      assert Ties(keys, p, p[0]) == Ties(keys, q, p[0]);
      SortedSameHead(keys, p, q);
      SortedTail(keys, p);
      SortedTail(keys, q);
      forall x | HasKeys(x, keys)
        ensures Ties(keys, p[1..], x) == Ties(keys, q[1..], x)
      {
        var h := if CompareBy(keys, p[0], x) == 0 then [p[0]] else [];
        assert Ties(keys, p, x) == h + Ties(keys, p[1..], x);
        assert Ties(keys, q, x) == h + Ties(keys, q[1..], x);
        assert Ties(keys, p, x) == Ties(keys, q, x);
        assert (h + Ties(keys, p[1..], x))[|h|..] == Ties(keys, p[1..], x);
        assert (h + Ties(keys, q[1..], x))[|h|..] == Ties(keys, q[1..], x);
      }
      SortedTiesDetermine(keys, p[1..], q[1..]);
      assert p == [p[0]] + p[1..] && q == [q[0]] + q[1..];
    }
  }

  /** Any sorted, stable rearrangement of `s` is `Sort(keys, s)`: modelling Python's `sorted`
      by this insertion sort loses nothing. */
  lemma {:induction false} SortUnique(keys: seq<SortKey>, s: seq<Record>, p: seq<Record>)
    requires AllHaveKeys(s, keys) && AllHaveKeys(p, keys)
    requires Sorted(keys, p)
    requires forall x :: HasKeys(x, keys) ==> Ties(keys, p, x) == Ties(keys, s, x)
    ensures p == Sort(keys, s)
  {
    SortSorted(keys, s);
    forall x | HasKeys(x, keys)
      ensures Ties(keys, p, x) == Ties(keys, Sort(keys, s), x)
    {
      SortStable(keys, s, x);
    }
    SortedTiesDetermine(keys, p, Sort(keys, s));
  }

  /** Line 86: the records the filter accepts, in order; every record when there is no filter. */
  function Select(data: seq<Record>, filter: Option<Record -> bool>): (kept: seq<Record>)
    ensures |kept| <= |data|
    ensures Sequences.IsSubsequence(kept, data)
    ensures forall x :: x in kept <==> x in data && (filter.None? || filter.value(x))
  {
    if filter.None? then
      SubsequenceReflexive(data);
      data
    else
      Sequences.KeepIsSubsequence(data, filter.value);
      Sequences.Keep(data, filter.value)
  }

  /** Line 89: `r` restricted to the columns named in `columns`, values unchanged. */
  function Project(r: Record, columns: seq<string>): (p: Record)
    ensures p.Keys == r.Keys * set c | c in columns
    ensures forall c :: c in p ==> p[c] == r[c]
  {
    map c | c in r && c in columns :: r[c]
  }

  /** Line 89 over the whole list: one record per input record, in order, each holding exactly
      its own cells under the projected columns. */
  function ProjectAll(s: seq<Record>, columns: seq<string>): (r: seq<Record>)
    ensures |r| == |s| && forall i :: 0 <= i < |s| ==> r[i] == Project(s[i], columns)
    ensures forall i :: 0 <= i < |s| ==>
      && r[i].Keys == s[i].Keys * (set c | c in columns)
      && forall c :: c in r[i] ==> r[i][c] == s[i][c]
  {
    seq(|s|, i requires 0 <= i < |s| => Project(s[i], columns))
  }

  /** The list `query_load` sorts: filtered first, then projected. */
  function Selected(data: seq<Record>, filter: Option<Record -> bool>, project: Option<seq<string>>): (s: seq<Record>)
    ensures |s| == |Select(data, filter)|
    ensures forall i :: 0 <= i < |s| ==>
      && s[i].Keys <= Select(data, filter)[i].Keys
      && (forall c :: c in s[i] ==> s[i][c] == Select(data, filter)[i][c])
      && (project.Some? ==> forall c :: c in Select(data, filter)[i] && c in project.value ==> c in s[i])
  {
    var kept := Select(data, filter);
    if project.None? then kept else ProjectAll(kept, project.value)
  }

  predicate LengthMismatch(sortKeys: Option<seq<string>>, sortOrder: Option<seq<string>>) {
    sortKeys.Some? && sortOrder.Some? && |sortOrder.value| != |sortKeys.value|
  }

  /** The comparison `query_load` sorts by. With directions (lines 95-96) each column name is
      stripped and is descending exactly when its direction is the string "Descending"; without
      (line 112) the key is the list of cells under the names as given, compared ascending. */
  function KeysOf(sortKeys: seq<string>, sortOrder: Option<seq<string>>): (keys: seq<SortKey>)
    requires sortOrder.Some? ==> |sortOrder.value| == |sortKeys|
    ensures |keys| == |sortKeys|
    ensures sortOrder.Some? ==> forall i :: 0 <= i < |keys| ==>
      keys[i] == SortKey(Strings.Strip(sortKeys[i]), sortOrder.value[i] == "Descending")
    ensures sortOrder.None? ==> forall i :: 0 <= i < |keys| ==> keys[i] == SortKey(sortKeys[i], false)
  {
    if sortOrder.Some? then
      seq(|sortKeys|, i requires 0 <= i < |sortKeys| =>
        SortKey(Strings.Strip(sortKeys[i]), sortOrder.value[i] == "Descending"))
    else
      seq(|sortKeys|, i requires 0 <= i < |sortKeys| => SortKey(sortKeys[i], false))
  }

  /** Line 112's sort key `[r[k] for k in sort_keys]`: the cells under the given names, in order. */
  function KeyTuple(r: Record, columns: seq<string>): (t: seq<Value>)
    requires forall i :: 0 <= i < |columns| ==> columns[i] in r
    ensures |t| == |columns|
  {
    if columns == [] then [] else [r[columns[0]]] + KeyTuple(r, columns[1..])
  }

  /** Python's comparison of two lists: the first position where they differ decides; when one
      is a prefix of the other, the shorter is smaller. */
  function CompareLists(x: seq<Value>, y: seq<Value>): int {
    if x == [] && y == [] then 0
    else if x == [] then -1
    else if y == [] then 1
    else if x[0] != y[0] then CompareValues(x[0], y[0])
    else CompareLists(x[1..], y[1..])
  }

  /** Without directions, the records are ordered as Python orders their key lists. */
  lemma {:induction false} KeyTupleOrder(columns: seq<string>, a: Record, b: Record)
    requires forall i :: 0 <= i < |columns| ==> columns[i] in a && columns[i] in b
    ensures HasKeys(a, KeysOf(columns, None)) && HasKeys(b, KeysOf(columns, None))
    ensures CompareBy(KeysOf(columns, None), a, b) == CompareLists(KeyTuple(a, columns), KeyTuple(b, columns))
  {
    var keys := KeysOf(columns, None);
    if columns != [] {
      assert keys[1..] == KeysOf(columns[1..], None);
      KeyTupleOrder(columns[1..], a, b);
      CompareValuesZero(a[columns[0]], b[columns[0]]);
    }
  }

  /** `next((result for result in comparer_iter if result), 0)` (line 103): the first non-zero
      result, 0 when there is none. */
  function FirstNonZero(results: seq<int>): int {
    if results == [] then 0 else if results[0] != 0 then results[0] else FirstNonZero(results[1..])
  }

  /** Lines 95-100: for each sort column, `cmp(fn(left), fn(right)) * mult`, where `fn` looks up
      the stripped column name and `mult` is -1 for `'Descending'` and 1 otherwise. */
  function ColumnResults(columns: seq<string>, order: seq<string>, a: Record, b: Record): (rs: seq<int>)
    requires |order| == |columns|
    requires forall i :: 0 <= i < |columns| ==> Strings.Strip(columns[i]) in a && Strings.Strip(columns[i]) in b
    ensures |rs| == |columns|
  {
    if columns == [] then []
    else
      var col := Strings.Strip(columns[0]);
      [CompareValues(a[col], b[col]) * (if order[0] == "Descending" then -1 else 1)]
        + ColumnResults(columns[1..], order[1..], a, b)
  }

  /** With directions, the records are ordered as the comparator of lines 98-103 orders them. */
  lemma {:induction false} DirectedOrder(columns: seq<string>, order: seq<string>, a: Record, b: Record)
    requires |order| == |columns|
    requires forall i :: 0 <= i < |columns| ==> Strings.Strip(columns[i]) in a && Strings.Strip(columns[i]) in b
    ensures HasKeys(a, KeysOf(columns, Some(order))) && HasKeys(b, KeysOf(columns, Some(order)))
    ensures CompareBy(KeysOf(columns, Some(order)), a, b) == FirstNonZero(ColumnResults(columns, order, a, b))
  {
    var keys := KeysOf(columns, Some(order));
    if columns != [] {
      assert keys[1..] == KeysOf(columns[1..], Some(order[1..]));
      DirectedOrder(columns[1..], order[1..], a, b);
    }
  }

  /** Two sort columns whose names need no stripping, with their directions. */
  lemma KeysOfTwo(a: string, b: string, first: string, second: string)
    requires Strings.Strip(a) == a && Strings.Strip(b) == b
    ensures KeysOf([a, b], Some([first, second])) == [SortKey(a, first == "Descending"), SortKey(b, second == "Descending")]
  {
    var keys := KeysOf([a, b], Some([first, second]));
    var d1, d2 := first == "Descending", second == "Descending";
    assert keys[0] == SortKey(Strings.Strip([a, b][0]), [first, second][0] == "Descending");
    assert keys[0] == SortKey(a, d1);
    assert keys[1] == SortKey(b, d2);
    PairOf(keys);
  }

  lemma PairOf<T>(s: seq<T>)
    requires |s| == 2
    ensures s == [s[0], s[1]]
  {
  }

  /** Two sort columns, the first descending and the second ascending: a record comes first when
      its first cell is larger, or equal with a second cell that is smaller or equal. */
  lemma CompareByTwo(keys: seq<SortKey>, k0: string, k1: string, a: Record, b: Record)
    requires keys == [SortKey(k0, true), SortKey(k1, false)]
    requires k0 in a && k1 in a && k0 in b && k1 in b
    ensures HasKeys(a, keys) && HasKeys(b, keys)
    ensures CompareBy(keys, a, b) <= 0 <==>
      || CompareValues(a[k0], b[k0]) > 0
      || (a[k0] == b[k0] && CompareValues(a[k1], b[k1]) <= 0)
  {
    var rest := keys[1..];
    assert rest[0] == keys[1];
    assert rest[1..] == [];
    assert CompareBy(rest[1..], a, b) == 0;
    assert CompareBy(rest, a, b) == CompareValues(a[k1], b[k1]);
    assert CompareBy(keys, a, b) == if CompareValues(a[k0], b[k0]) != 0 then -CompareValues(a[k0], b[k0]) else CompareBy(rest, a, b);
    CompareValuesZero(a[k0], b[k0]);
  }

  /** `query_load(data, filter_expression, project_keys, sort_keys, sort_order)`. */
  function Query(data: seq<Record>, filter: Option<Record -> bool>, project: Option<seq<string>>,
                 sortKeys: Option<seq<string>>, sortOrder: Option<seq<string>>): (r: Result<seq<Record>, QueryError>)
    // a direction list of the wrong length is refused, and nothing else is
    ensures r == Failure(SortOrderLengthMismatch) <==> LengthMismatch(sortKeys, sortOrder)
    ensures r == Failure(MissingSortColumn) <==>
      && sortKeys.Some? && !LengthMismatch(sortKeys, sortOrder)
      && !AllHaveKeys(Selected(data, filter, project), KeysOf(sortKeys.value, sortOrder))
    // without sort keys the filtered, projected list comes back in its input order
    ensures sortKeys.None? ==> r == Success(Selected(data, filter, project))
    // otherwise it comes back rearranged, in order, with tied records in their input order
    ensures r.Success? ==> multiset(r.value) == multiset(Selected(data, filter, project))
    ensures r.Success? && sortKeys.Some? ==>
      var keys := KeysOf(sortKeys.value, sortOrder);
      && AllHaveKeys(Selected(data, filter, project), keys)
      && AllHaveKeys(r.value, keys)
      && Sorted(keys, r.value)
      && forall x :: HasKeys(x, keys) ==> Ties(keys, r.value, x) == Ties(keys, Selected(data, filter, project), x)
  {
    var selected := Selected(data, filter, project);
    if sortKeys.None? then Success(selected)
    else if LengthMismatch(sortKeys, sortOrder) then Failure(SortOrderLengthMismatch)
    else
      var keys := KeysOf(sortKeys.value, sortOrder);
      if !AllHaveKeys(selected, keys) then Failure(MissingSortColumn)
      else
        SortSorted(keys, selected);
        StableForAll(keys, selected);
        Success(Sort(keys, selected))
  }

  lemma StableForAll(keys: seq<SortKey>, s: seq<Record>)
    requires AllHaveKeys(s, keys)
    ensures forall x :: HasKeys(x, keys) ==> Ties(keys, Sort(keys, s), x) == Ties(keys, s, x)
  {
    forall x | HasKeys(x, keys)
      ensures Ties(keys, Sort(keys, s), x) == Ties(keys, s, x)
    {
      SortStable(keys, s, x);
    }
  }

  /** Lines 85-89 of `query_load`, filter and projection: the selected list holds, in their input
      order, exactly the records the filter accepts, each cut down to the projected columns. */
  lemma {:induction false} SelectedSpec(data: seq<Record>, filter: Option<Record -> bool>, project: Option<seq<string>>)
    ensures var kept := Select(data, filter);
      && Sequences.IsSubsequence(kept, data)
      && (forall x :: x in kept <==> x in data && (filter.None? || filter.value(x)))
      && (forall x :: multiset(kept)[x] == if filter.None? || filter.value(x) then multiset(data)[x] else 0)
      && Selected(data, filter, project) == if project.None? then kept else ProjectAll(kept, project.value)
  {
    if filter.Some? {
      Sequences.KeepIsSubsequence(data, filter.value);
    } else {
      SubsequenceReflexive(data);
    }
  }

  lemma {:induction false} SubsequenceReflexive(s: seq<Record>)
    ensures Sequences.IsSubsequence(s, s)
  {
    if s != [] {
      SubsequenceReflexive(s[1..]);
    }
  }
}
