/**
 * The ranker get_top_n_matches of jd-matching-project/src/matching.py.
 *
 * Given one similarity score per employee row, get_top_n_matches adds the
 * scores as a "similarity" column to a copy of the employee table, sorts the
 * copy by that column in descending order, keeps the first n rows and
 * projects the columns employee_id, name, current_jd and similarity.
 *
 * The scores arrive here as a sequence of reals: computing them (cosine
 * similarity of TF-IDF vectors) happens in a library outside this model.
 * The sort the source uses is not stable, so the model promises nothing
 * about the order of rows with equal scores.
 */
module Matching {

  /** One row of the employee table: column name to cell value. */
  type Row<V> = map<string, V>

  const EmployeeIdColumn: string := "employee_id"
  const NameColumn: string := "name"
  const CurrentJdColumn: string := "current_jd"

  /** The table columns the result keeps, in the order the source lists them. */
  const ProjectedColumns: seq<string> := [EmployeeIdColumn, NameColumn, CurrentJdColumn]

  /** A row of the table copy once the similarity column is added; index is
      the row's label in the caller's table, which the result keeps. */
  datatype ScoredRow<V> = ScoredRow(index: nat, row: Row<V>, similarity: real)

  /** A row of the result: its label and the four projected columns. */
  datatype Match<V> = Match(index: nat, employeeId: V, name: V, currentJd: V, similarity: real)

  datatype Error =
      /** Assigning a score column whose length differs from the table's. */
    | LengthMismatch(rows: nat, scores: nat)
      /** Projecting columns the table does not have. */
    | MissingColumns(names: seq<string>)

  datatype Result<T> = Ok(value: T) | Err(error: Error)

  function Min(a: nat, b: nat): nat {
    if a <= b then a else b
  }

  predicate HasProjectedColumns<V>(row: Row<V>) {
    EmployeeIdColumn in row && NameColumn in row && CurrentJdColumn in row
  }

  /** The names among wanted that are not columns of the table, in order. */
  function MissingFrom(wanted: seq<string>, columns: set<string>): (names: seq<string>)
    ensures forall c :: c in names <==> c in wanted && c !in columns
  {
    if wanted == [] then []
    else (if wanted[0] in columns then [] else [wanted[0]]) + MissingFrom(wanted[1..], columns)
  }

  /** The projected columns the table lacks. */
  function Missing(columns: set<string>): (names: seq<string>)
    ensures names == [] <==> EmployeeIdColumn in columns && NameColumn in columns && CurrentJdColumn in columns
  {
    var names := MissingFrom(ProjectedColumns, columns);
    assert ProjectedColumns[0] == EmployeeIdColumn && ProjectedColumns[1] == NameColumn;
    assert ProjectedColumns[2] == CurrentJdColumn;
    assert names != [] ==> names[0] in names;
    names
  }

  // ----------------------------------------------------------------------
  // What the result promises
  // ----------------------------------------------------------------------

  /** The copy of the table with the similarity column: it holds each row
      once, under its own label, with the score computed for that label. */
  ghost function WithSimilarity<V>(rows: seq<Row<V>>, scores: seq<real>): (t: seq<ScoredRow<V>>)
    requires |scores| == |rows|
    ensures |t| == |rows|
    ensures CopyLabels(t) == Range(|rows|)
    ensures forall p, q :: 0 <= p < q < |t| ==> t[p] != t[q]
    ensures forall p :: 0 <= p < |t| ==>
              t[p].index < |rows| && t[p].row == rows[t[p].index] && t[p].similarity == scores[t[p].index]
  {
    var t := seq(|rows|, i requires 0 <= i < |rows| => ScoredRow(i, rows[i], scores[i]));
    forall j | j in CopyLabels(t)
      ensures j in Range(|rows|)
    {
      var p :| 0 <= p < |t| && t[p].index == j;
    }
    forall j | j in Range(|rows|)
      ensures j in CopyLabels(t)
    {
      assert t[j].index == j;
    }
    t
  }

  predicate SortedBySimilarity<V>(s: seq<ScoredRow<V>>) {
    forall p, q :: 0 <= p < q < |s| ==> s[p].similarity >= s[q].similarity
  }

  /** The labels of the rows a result holds. */
  ghost function Labels<V>(ms: seq<Match<V>>): set<nat> {
    set q | 0 <= q < |ms| :: ms[q].index
  }

  /** The labels of the rows of a table copy. */
  ghost function CopyLabels<V>(s: seq<ScoredRow<V>>): set<nat> {
    set p | 0 <= p < |s| :: s[p].index
  }

  /** m carries the employee_id, name and current_jd cells of row and the
      given similarity, and nothing else. */
  ghost predicate ProjectsRow<V>(m: Match<V>, row: Row<V>, similarity: real) {
    && HasProjectedColumns(row)
    && m.employeeId == row[EmployeeIdColumn]
    && m.name == row[NameColumn]
    && m.currentJd == row[CurrentJdColumn]
    && m.similarity == similarity
  }

  /** m is row m.index of the table, projected, with that row's score. */
  ghost predicate IsProjectionOf<V>(m: Match<V>, rows: seq<Row<V>>, scores: seq<real>) {
    && m.index < |rows| && m.index < |scores|
    && ProjectsRow(m, rows[m.index], scores[m.index])
  }

  /** ms is a top-n selection of the scored table: min(n, rows) distinct
      rows, each projected with its own score, sorted by descending score,
      and scoring at least as high as every row left out. */
  ghost predicate IsTopN<V>(scores: seq<real>, rows: seq<Row<V>>, n: nat, ms: seq<Match<V>>) {
    && |scores| == |rows|
    && |ms| == Min(n, |rows|)
    && (forall p, q :: 0 <= p < q < |ms| ==> ms[p].similarity >= ms[q].similarity)
    && (forall p, q :: 0 <= p < q < |ms| ==> ms[p].index != ms[q].index)
    && (forall q :: 0 <= q < |ms| ==> IsProjectionOf(ms[q], rows, scores))
    && (forall j, q :: 0 <= j < |rows| && j !in Labels(ms) && 0 <= q < |ms| ==>
          scores[j] <= ms[q].similarity)
  }

  // ----------------------------------------------------------------------
  // The ranking
  // ----------------------------------------------------------------------

  /** top_matches[["employee_id", "name", "current_jd", "similarity"]] */
  function Project<V>(t: ScoredRow<V>): (m: Match<V>)
    requires HasProjectedColumns(t.row)
    ensures m.index == t.index && ProjectsRow(m, t.row, t.similarity)
  {
    Match(t.index, t.row[EmployeeIdColumn], t.row[NameColumn], t.row[CurrentJdColumn], t.similarity)
  }

  /** .head(n) of the sorted copy, projected. */
  function Head<V>(sorted: seq<ScoredRow<V>>, n: nat): (ms: seq<Match<V>>)
    requires forall p :: 0 <= p < |sorted| ==> HasProjectedColumns(sorted[p].row)
    ensures |ms| == Min(n, |sorted|)
    ensures Labels(ms) == CopyLabels(sorted[..|ms|])
    ensures SortedBySimilarity(sorted) ==>
              forall p, q :: 0 <= p < q < |ms| ==> ms[p].similarity >= ms[q].similarity
  {
    var k := Min(n, |sorted|);
    var ms := seq(k, q requires 0 <= q < k => Project(sorted[q]));
    assert forall q :: 0 <= q < k ==> ms[q].index == sorted[..k][q].index;
    assert forall q :: 0 <= q < k ==> ms[q].index in Labels(ms) && sorted[..k][q].index in CopyLabels(sorted[..k]);
    ms
  }

  /** The position of a highest score among a[from..]. */
  method IndexOfBest<V>(a: array<ScoredRow<V>>, from: nat) returns (m: nat)
    requires from < a.Length
    ensures from <= m < a.Length
    ensures forall q :: from <= q < a.Length ==> a[q].similarity <= a[m].similarity
  {
    m := from;
    var j := from + 1;
    while j < a.Length
      invariant from <= m < j <= a.Length
      invariant forall q :: from <= q < j ==> a[q].similarity <= a[m].similarity
    {
      if a[j].similarity > a[m].similarity {
        m := j;
      }
      j := j + 1;
    }
  }

  /** sort_values(by="similarity", ascending=False), done in place on the
      copy; any order among equal scores is allowed. */
  method SortBySimilarity<V(==)>(a: array<ScoredRow<V>>)
    modifies a
    ensures SortedBySimilarity(a[..])
    ensures multiset(a[..]) == old(multiset(a[..]))
  {
    var i := 0;
    while i < a.Length
      invariant 0 <= i <= a.Length
      invariant forall p, q :: 0 <= p < q < i ==> a[p].similarity >= a[q].similarity
      invariant forall p, q :: 0 <= p < i <= q < a.Length ==> a[p].similarity >= a[q].similarity
      invariant multiset(a[..]) == old(multiset(a[..]))
    {
      var m := IndexOfBest(a, i);
      a[i], a[m] := a[m], a[i];
      i := i + 1;
    }
  }

  /** get_top_n_matches, given the similarity scores. The caller's table is
      only read: the scores are added to a fresh copy. */
  method TopNMatches<V(==)>(scores: seq<real>, columns: set<string>, employees: array<Row<V>>, n: nat := 5)
    returns (r: Result<seq<Match<V>>>)
    requires forall i :: 0 <= i < employees.Length ==> employees[i].Keys == columns
    ensures |scores| != employees.Length ==> r == Err(LengthMismatch(employees.Length, |scores|))
    ensures |scores| == employees.Length && Missing(columns) != [] ==>
              r == Err(MissingColumns(Missing(columns)))
    ensures |scores| == employees.Length && Missing(columns) == [] ==>
              r.Ok? && IsTopN(scores, employees[..], n, r.value)
  {
    if |scores| != employees.Length {
      return Err(LengthMismatch(employees.Length, |scores|));
    }
    var table := new ScoredRow<V>[employees.Length](
      i requires 0 <= i < employees.Length reads employees => ScoredRow(i, employees[i], scores[i]));
    assert table[..] == WithSimilarity(employees[..], scores);
    SortBySimilarity(table);
    var missing := Missing(columns);
    if missing != [] {
      return Err(MissingColumns(missing));
    }
    assert forall i :: 0 <= i < employees.Length ==> HasProjectedColumns(employees[..][i]);
    HeadOfSortedCopyIsTopN(employees[..], scores, table[..], n);
    return Ok(Head(table[..], n));
  }

  // ----------------------------------------------------------------------
  // Proofs
  // ----------------------------------------------------------------------

  /** A sequence with no repeated element holds each value at most once. */
  lemma {:induction false} CountInDistinct<T>(s: seq<T>, x: T)
    requires forall p, q :: 0 <= p < q < |s| ==> s[p] != s[q]
    ensures multiset(s)[x] <= 1
  {
    if s != [] {
      assert s == [s[0]] + s[1..];
      CountInDistinct(s[1..], x);
      if x == s[0] {
        assert x !in s[1..];
      }
    }
  }

  /** A value that occurs at two positions is counted at least twice. */
  lemma {:induction false} CountOfRepeated<T>(s: seq<T>, p: nat, q: nat)
    requires p < q < |s| && s[p] == s[q]
    ensures multiset(s)[s[p]] >= 2
  {
    assert s == s[..q] + s[q..];
    assert s[p] in s[..q];
    assert s[q] in s[q..];
  }

  /** Reordering the copy keeps its rows, so every sorted row is one of the
      table's rows with its own score, no row occurs twice, and every row
      occurs. */
  lemma {:induction false} SortedCopyHoldsEachRowOnce<V>(rows: seq<Row<V>>, scores: seq<real>, sorted: seq<ScoredRow<V>>)
    requires |scores| == |rows|
    requires multiset(sorted) == multiset(WithSimilarity(rows, scores))
    ensures |sorted| == |rows|
    ensures forall p :: 0 <= p < |sorted| ==>
              sorted[p].index < |rows| && sorted[p] == WithSimilarity(rows, scores)[sorted[p].index]
    ensures forall p, q :: 0 <= p < q < |sorted| ==> sorted[p].index != sorted[q].index
    ensures forall j :: 0 <= j < |rows| ==> j in CopyLabels(sorted)
  {
    var copy := WithSimilarity(rows, scores);
    assert |sorted| == |multiset(sorted)| == |multiset(copy)| == |copy|;
    forall p | 0 <= p < |sorted|
      ensures sorted[p].index < |rows| && sorted[p] == copy[sorted[p].index]
    {
      assert sorted[p] in multiset(sorted);
      assert sorted[p] in copy;
    }
    forall p, q | 0 <= p < q < |sorted|
      ensures sorted[p].index != sorted[q].index
    {
      if sorted[p].index == sorted[q].index {
        CountOfRepeated(sorted, p, q);
        CountInDistinct(copy, sorted[p]);
        assert false;
      }
    }
    forall j | 0 <= j < |rows|
      ensures j in CopyLabels(sorted)
    {
      assert copy[j] in multiset(copy);
      assert copy[j] in sorted;
      var p :| 0 <= p < |sorted| && sorted[p] == copy[j];
      assert sorted[p].index == j;
      assert sorted[p].index in CopyLabels(sorted);
    }
  }

  /** The first n rows of the copy, sorted by descending score and
      projected, form a top-n selection. */
  lemma {:induction false} HeadOfSortedCopyIsTopN<V>(rows: seq<Row<V>>, scores: seq<real>, sorted: seq<ScoredRow<V>>, n: nat)
    requires |scores| == |rows|
    requires forall i :: 0 <= i < |rows| ==> HasProjectedColumns(rows[i])
    requires multiset(sorted) == multiset(WithSimilarity(rows, scores))
    requires SortedBySimilarity(sorted)
    ensures forall p :: 0 <= p < |sorted| ==> HasProjectedColumns(sorted[p].row)
    ensures IsTopN(scores, rows, n, Head(sorted, n))
  {
    SortedCopyHoldsEachRowOnce(rows, scores, sorted);
    var ms := Head(sorted, n);
    var k := |ms|;
    forall q | 0 <= q < k
      ensures IsProjectionOf(ms[q], rows, scores)
    {
      assert sorted[q] == WithSimilarity(rows, scores)[sorted[q].index];
    }
    forall p | 0 <= p < k
      ensures sorted[p].index in Labels(ms)
    {
      assert ms[p].index == sorted[p].index;
    }
    forall j, q | 0 <= j < |rows| && j !in Labels(ms) && 0 <= q < k
      ensures scores[j] <= ms[q].similarity
    {
      assert j in CopyLabels(sorted);
      var p :| 0 <= p < |sorted| && sorted[p].index == j;
      assert sorted[p] == WithSimilarity(rows, scores)[j];
    }
  }

  /** The first result scores at least as high as every row of the table. */
  lemma {:induction false} TopMatchIsBest<V>(scores: seq<real>, rows: seq<Row<V>>, n: nat, ms: seq<Match<V>>)
    requires IsTopN(scores, rows, n, ms)
    requires ms != []
    ensures forall j :: 0 <= j < |rows| ==> scores[j] <= ms[0].similarity
  {
    forall j | 0 <= j < |rows|
      ensures scores[j] <= ms[0].similarity
    {
      if j in Labels(ms) {
        var q :| 0 <= q < |ms| && ms[q].index == j;
        assert IsProjectionOf(ms[q], rows, scores);
      }
    }
  }

  /** Distinct labels make a set as large as the result. */
  lemma {:induction false} LabelsOfDistinct<V>(ms: seq<Match<V>>)
    requires forall p, q :: 0 <= p < q < |ms| ==> ms[p].index != ms[q].index
    ensures |Labels(ms)| == |ms|
  {
    if ms != [] {
      var last := |ms| - 1;
      LabelsOfDistinct(ms[..last]);
      assert Labels(ms) == Labels(ms[..last]) + {ms[last].index};
      assert ms[last].index !in Labels(ms[..last]);
    }
  }

  /** The labels 0 .. n-1. */
  ghost function Range(n: nat): (r: set<nat>)
    ensures forall j :: j in r <==> 0 <= j < n
    ensures |r| == n
  {
    if n == 0 then {} else Range(n - 1) + {n - 1}
  }

  /** When n covers the table, every row is returned. */
  lemma {:induction false} AllRowsWhenNCoversTable<V>(scores: seq<real>, rows: seq<Row<V>>, n: nat, ms: seq<Match<V>>)
    requires IsTopN(scores, rows, n, ms)
    requires n >= |rows|
    ensures forall j :: 0 <= j < |rows| ==> j in Labels(ms)
  {
    var all := Range(|rows|);
    LabelsOfDistinct(ms);
    forall l | l in Labels(ms)
      ensures l in all
    {
      var q :| 0 <= q < |ms| && ms[q].index == l;
      assert IsProjectionOf(ms[q], rows, scores);
    }
    SubsetOfSameSize(Labels(ms), all);
  }

  lemma {:induction false} SubsetOfSameSize<T>(a: set<T>, b: set<T>)
    requires a <= b && |a| == |b|
    ensures a == b
  {
    var rest := b - a;
    assert b == a + rest;
    assert a * rest == {};
    assert |b| == |a| + |rest|;
    assert rest == {};
  }
}
