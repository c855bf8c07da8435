/** The regular expressions of the column-resolution fallback (src/h1b_counting.py:277-287), all of
    the shape `.*(s1|s2|...).*(e1|e2|...)$`, applied with Python's `re.match`: anchored at the start
    of the header, `.` matching any character but a newline, `$` matching at the end of the header
    or just before a final newline. `Match` is a backtracking matcher over the pattern's pieces;
    `PatternMeaning` proves it accepts exactly the headers that `Described` characterises. */
module Patterns {
  import Strings

  /** One piece of a pattern: `.*`, a group of literal alternatives, or `$`. */
  datatype Piece = AnyRun | OneOf(options: seq<string>) | LineEnd

  /** `.*(stems).*(endings)$`; an ending such as `_(title|name)` is written `(_title|_name)`. */
  datatype Pattern = Pattern(stems: seq<string>, endings: seq<string>)

  function Pieces(p: Pattern): seq<Piece> {
    [AnyRun, OneOf(p.stems), AnyRun, OneOf(p.endings), LineEnd]
  }

  /** No newline among `s[i..j]`. */
  predicate Plain(s: string, i: int, j: int) {
    forall k :: i <= k < j && 0 <= k < |s| ==> s[k] != '\n'
  }

  /** Where `$` matches: the end of `s`, or just before a newline that ends it. */
  predicate AtEnd(s: string, i: int) {
    i == |s| || (0 <= i && i + 1 == |s| && s[i] == '\n')
  }

  /** `re` matches a prefix of `s[i..]` (the `re.match` semantics: only the start is anchored). */
  function Match(re: seq<Piece>, s: string, i: nat): bool
    requires i <= |s|
    decreases |re|, |s| - i
  {
    if re == [] then true
    else match re[0]
      case AnyRun => Match(re[1..], s, i) || (i < |s| && s[i] != '\n' && Match(re, s, i + 1))
      case OneOf(opts) =>
        exists k :: 0 <= k < |opts| && Strings.OccursAt(s, opts[k], i) && Match(re[1..], s, i + |opts[k]|)
      case LineEnd => AtEnd(s, i) && Match(re[1..], s, i)
  }

  /** Only the start is anchored: without `$`, text appended to a matched header keeps it matched. */
  lemma {:induction false} MatchExtends(re: seq<Piece>, s: string, t: string, i: nat)
    requires i <= |s| && LineEnd !in re && Match(re, s, i)
    ensures Match(re, s + t, i)
    decreases |re|, |s| - i
  {
    if re != [] {
      assert LineEnd !in re[1..];
      match re[0]
      case AnyRun =>
        if Match(re[1..], s, i) {
          MatchExtends(re[1..], s, t, i);
        } else {
          MatchExtends(re, s, t, i + 1);
          assert (s + t)[i] == s[i];
        }
      case OneOf(opts) =>
        var k :| 0 <= k < |opts| && Strings.OccursAt(s, opts[k], i) && Match(re[1..], s, i + |opts[k]|);
        MatchExtends(re[1..], s, t, i + |opts[k]|);
        assert (s + t)[i..i + |opts[k]|] == s[i..i + |opts[k]|];
    }
  }

  /** No alternative of the pattern holds a newline (true of every pattern in the program). */
  predicate Plainly(p: Pattern) {
    && (forall k :: 0 <= k < |p.stems| ==> Strings.NoNewline(p.stems[k]))
    && (forall k :: 0 <= k < |p.endings| ==> Strings.NoNewline(p.endings[k]))
  }

  /** What the pattern accepts, without backtracking: up to an optional final newline, `s` holds
      no newline, contains a stem, and ends with an ending that starts at or after the stem's end. */
  ghost predicate Described(p: Pattern, s: string) {
    exists k, q, i, j ::
      && 0 <= k < |p.stems| && 0 <= q < |p.endings|
      && Strings.OccursAt(s, p.stems[k], i) && i + |p.stems[k]| <= j
      && Strings.OccursAt(s, p.endings[q], j) && AtEnd(s, j + |p.endings[q]|)
      && Plain(s, 0, j + |p.endings[q]|)
  }

  /** `.*` followed by `re[1..]` matches at `i` exactly when `re[1..]` matches at some later
      position `j` with no newline in between. */
  lemma {:induction false} AnyRunMeaning(re: seq<Piece>, s: string, i: nat)
    requires re != [] && re[0] == AnyRun && i <= |s|
    ensures Match(re, s, i) <==> exists j :: i <= j <= |s| && Plain(s, i, j) && Match(re[1..], s, j)
    decreases |s| - i
  {
    if i < |s| {
      AnyRunMeaning(re, s, i + 1);
    }
    if Match(re, s, i) && !Match(re[1..], s, i) {
      assert i < |s| && s[i] != '\n' && Match(re, s, i + 1);
      var j :| i + 1 <= j <= |s| && Plain(s, i + 1, j) && Match(re[1..], s, j);
      assert Plain(s, i, j);
    }
    if exists j :: i <= j <= |s| && Plain(s, i, j) && Match(re[1..], s, j) {
      var j :| i <= j <= |s| && Plain(s, i, j) && Match(re[1..], s, j);
      if j != i {
        assert Plain(s, i + 1, j);
      }
    }
  }

  /** The tail `(endings)$` of a pattern. */
  lemma EndingMeaning(p: Pattern, s: string, j: nat)
    requires j <= |s|
    ensures Match(Pieces(p)[3..], s, j) <==>
      exists q :: 0 <= q < |p.endings| && Strings.OccursAt(s, p.endings[q], j) && AtEnd(s, j + |p.endings[q]|)
  {
    var re := Pieces(p)[3..];
    assert re[0] == OneOf(p.endings);
    assert re[1..] == [LineEnd];
    assert [LineEnd][1..] == [];
    forall n: nat | n <= |s|
      ensures Match([LineEnd], s, n) == AtEnd(s, n)
    {
    }
  }

  /** The part `.*(endings)$` after the stem. */
  lemma AfterStemMeaning(p: Pattern, s: string, m: nat)
    requires m <= |s|
    ensures Match(Pieces(p)[2..], s, m) <==>
      exists q, j :: 0 <= q < |p.endings| && m <= j && Strings.OccursAt(s, p.endings[q], j) &&
        AtEnd(s, j + |p.endings[q]|) && Plain(s, m, j)
  {
    var re := Pieces(p)[2..];
    assert re[1..] == Pieces(p)[3..];
    AnyRunMeaning(re, s, m);
    forall j: nat | j <= |s|
      ensures Match(Pieces(p)[3..], s, j) <==>
        exists q :: 0 <= q < |p.endings| && Strings.OccursAt(s, p.endings[q], j) && AtEnd(s, j + |p.endings[q]|)
    {
      EndingMeaning(p, s, j);
    }
  }

  /** The pieces after the leading `.*`: a stem at `i`, then the rest. */
  lemma FromStemMeaning(p: Pattern, s: string, i: nat)
    requires i <= |s|
    ensures Match(Pieces(p)[1..], s, i) <==>
      exists k :: 0 <= k < |p.stems| && Strings.OccursAt(s, p.stems[k], i) &&
        Match(Pieces(p)[2..], s, i + |p.stems[k]|)
  {
    var re := Pieces(p)[1..];
    assert re[0] == OneOf(p.stems);
    assert re[1..] == Pieces(p)[2..];
  }

  /** A match, taken apart: where the stem and the ending sit. */
  lemma MatchDescribed(p: Pattern, s: string)
    requires Plainly(p)
    requires Match(Pieces(p), s, 0)
    ensures Described(p, s)
  {
    var re := Pieces(p);
    AnyRunMeaning(re, s, 0);
    assert re[1..] == Pieces(p)[1..];
    var i :| 0 <= i <= |s| && Plain(s, 0, i) && Match(Pieces(p)[1..], s, i);
    var k, q, j := StemThenEnding(p, s, i);
  }

  /** The stem and the ending of a match whose stem starts at `i`. */
  lemma StemThenEnding(p: Pattern, s: string, i: nat) returns (k: nat, q: nat, j: nat)
    requires Plainly(p) && i <= |s|
    requires Plain(s, 0, i) && Match(Pieces(p)[1..], s, i)
    ensures k < |p.stems| && q < |p.endings|
    ensures Strings.OccursAt(s, p.stems[k], i) && i + |p.stems[k]| <= j
    ensures Strings.OccursAt(s, p.endings[q], j) && AtEnd(s, j + |p.endings[q]|)
    ensures Plain(s, 0, j + |p.endings[q]|)
  {
    FromStemMeaning(p, s, i);
    k :| 0 <= k < |p.stems| && Strings.OccursAt(s, p.stems[k], i) && Match(Pieces(p)[2..], s, i + |p.stems[k]|);
    var m := i + |p.stems[k]|;
    AfterStemMeaning(p, s, m);
    q, j :| 0 <= q < |p.endings| && m <= j && Strings.OccursAt(s, p.endings[q], j) &&
      AtEnd(s, j + |p.endings[q]|) && Plain(s, m, j);
    PlainOccurrence(s, p.stems[k], i);
    PlainOccurrence(s, p.endings[q], j);
  }

  /** A description yields a match. */
  lemma DescribedMatch(p: Pattern, s: string)
    requires Described(p, s)
    ensures Match(Pieces(p), s, 0)
  {
    var k, q, i, j :|
      && 0 <= k < |p.stems| && 0 <= q < |p.endings|
      && Strings.OccursAt(s, p.stems[k], i) && i + |p.stems[k]| <= j
      && Strings.OccursAt(s, p.endings[q], j) && AtEnd(s, j + |p.endings[q]|)
      && Plain(s, 0, j + |p.endings[q]|);
    var m := i + |p.stems[k]|;
    AfterStemAt(p, s, m, q, j);
    FromStemAt(p, s, i, k);
    var re := Pieces(p);
    AnyRunMeaning(re, s, 0);
    assert re[1..] == Pieces(p)[1..];
    assert Plain(s, 0, i);
  }

  lemma AfterStemAt(p: Pattern, s: string, m: nat, q: nat, j: nat)
    requires q < |p.endings| && m <= j
    requires Strings.OccursAt(s, p.endings[q], j) && AtEnd(s, j + |p.endings[q]|) && Plain(s, m, j)
    ensures Match(Pieces(p)[2..], s, m)
  {
    EndingMeaning(p, s, j);
    var re := Pieces(p)[2..];
    assert re[1..] == Pieces(p)[3..];
    AnyRunMeaning(re, s, m);
  }

  lemma FromStemAt(p: Pattern, s: string, i: nat, k: nat)
    requires k < |p.stems| && Strings.OccursAt(s, p.stems[k], i)
    requires Match(Pieces(p)[2..], s, i + |p.stems[k]|)
    ensures Match(Pieces(p)[1..], s, i)
  {
    FromStemMeaning(p, s, i);
  }

  /** Text copied from a newline-free literal holds no newline. */
  lemma PlainOccurrence(s: string, stem: string, i: int)
    requires Strings.NoNewline(stem) && Strings.OccursAt(s, stem, i)
    ensures Plain(s, i, i + |stem|)
  {
    forall n | i <= n < i + |stem|
      ensures s[n] != '\n'
    {
      assert s[n] == s[i..i + |stem|][n - i];
    }
  }

  /** Where the ending of a described header sits: it ends at `e`, the position `$` matches. */
  lemma DescribedEnds(p: Pattern, s: string) returns (q: nat, e: nat)
    requires Described(p, s)
    ensures q < |p.endings| && AtEnd(s, e) && |p.endings[q]| <= e <= |s|
    ensures s[e - |p.endings[q]|..e] == p.endings[q]
  {
    var k, q', i, j :|
      && 0 <= k < |p.stems| && 0 <= q' < |p.endings|
      && Strings.OccursAt(s, p.stems[k], i) && i + |p.stems[k]| <= j
      && Strings.OccursAt(s, p.endings[q'], j) && AtEnd(s, j + |p.endings[q']|)
      && Plain(s, 0, j + |p.endings[q']|);
    q, e := q', j + |p.endings[q']|;
  }

  /** The matcher accepts exactly the described headers. */
  lemma PatternMeaning(p: Pattern, s: string)
    requires Plainly(p)
    ensures Match(Pieces(p), s, 0) <==> Described(p, s)
  {
    if Match(Pieces(p), s, 0) {
      MatchDescribed(p, s);
    }
    if Described(p, s) {
      DescribedMatch(p, s);
    }
  }
}
