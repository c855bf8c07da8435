/** The record store's element type: a row of the semicolon-delimited input, keyed by lower-cased
    column name, plus the rows the aggregation builds (which also hold numbers). */
module Records {
  import Strings

  /** A cell. The loader only produces strings; a cell the input row leaves out (Python's `None`)
      is represented by the empty string, since every consumer treats `None` and `''` alike. */
  datatype Value = Str(s: string) | Num(n: int)

  type Record = map<string, Value>

  const MISSING: Value := Str("")

  /** The source's test `x[c] is None or x[c] == ''`. */
  predicate Empty(v: Value) {
    v == MISSING
  }

  /** The cell at column `c`, `MISSING` when the record has no such column. */
  function Cell(r: Record, c: string): (v: Value)
    ensures c in r ==> v == r[c]
    ensures c !in r ==> Empty(v)
  {
    if c in r then r[c] else MISSING
  }

  predicate HasColumns(r: Record, cols: seq<string>) {
    forall c :: c in cols ==> c in r
  }

  /** Python's three-way comparison of two cells: numbers numerically, strings by code point.
      A number and a string are ordered number first. */
  function CompareValues(a: Value, b: Value): (c: int)
    ensures -1 <= c <= 1
  {
    match (a, b)
    case (Num(x), Num(y)) => if x < y then -1 else if x > y then 1 else 0
    case (Str(x), Str(y)) => Strings.Compare(x, y)
    case (Num(_), Str(_)) => -1
    case (Str(_), Num(_)) => 1
  }

  lemma CompareValuesZero(a: Value, b: Value)
    ensures CompareValues(a, b) == 0 <==> a == b
  {
    if a.Str? && b.Str? {
      Strings.CompareZero(a.s, b.s);
    }
  }

  lemma CompareValuesAntisymmetric(a: Value, b: Value)
    ensures CompareValues(a, b) == -CompareValues(b, a)
  {
    if a.Str? && b.Str? {
      Strings.CompareAntisymmetric(a.s, b.s);
    }
  }

  lemma CompareValuesTransitive(a: Value, b: Value, c: Value)
    requires CompareValues(a, b) <= 0 && CompareValues(b, c) <= 0
    ensures CompareValues(a, c) <= 0
  {
    if a.Str? && b.Str? && c.Str? {
      Strings.CompareTransitive(a.s, b.s, c.s);
    }
  }
}
