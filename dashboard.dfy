/**
 * How the pieces combine in `run_streamlit_app`: the affiliation chart counts the
 * selected rows (lines 41-42), and the two example situations the dashboard is
 * expected to handle.
 */
module Dashboard {
  import opened Results
  import opened Seqs
  import opened Tables
  import opened Cleaning
  import opened Filters
  import opened Aggregates

  /** Selecting rows by `a` keeps every row that carries `a`, so the count of `a` is the same,
      and every other affiliation disappears. */
  lemma CountAfterSelect(rows: seq<Row>, col: nat, a: string)
    ensures CountCarrying(RowsCarrying(rows, col, a), col, a) == CountCarrying(rows, col, a)
    ensures forall b :: b != a ==> CountCarrying(RowsCarrying(rows, col, a), col, b) == 0
  {
    CountSelected(rows, col, a);
    forall b | b != a ensures CountCarrying(RowsCarrying(rows, col, a), col, b) == 0 {
      CountOthersSelected(rows, col, a, b);
    }
  }

  /** The selected affiliation keeps its count. */
  lemma {:induction false} CountSelected(rows: seq<Row>, col: nat, a: string)
    ensures CountCarrying(RowsCarrying(rows, col, a), col, a) == CountCarrying(rows, col, a)
  {
    if |rows| > 0 {
      var init := rows[..|rows| - 1];
      var last := rows[|rows| - 1];
      CountSelected(init, col, a);
      var f := RowsCarrying(init, col, a);
      RowsCarryingLast(rows, col, a);
      if Carries(last, col, a) {
        assert (f + [last])[..|f|] == f;
      } else {
        assert f + [] == f;
      }
    }
  }

  /** Any other affiliation counts zero among the selected rows. */
  lemma {:induction false} CountOthersSelected(rows: seq<Row>, col: nat, a: string, b: string)
    requires b != a
    ensures CountCarrying(RowsCarrying(rows, col, a), col, b) == 0
  {
    if |rows| > 0 {
      var init := rows[..|rows| - 1];
      var last := rows[|rows| - 1];
      CountOthersSelected(init, col, a, b);
      var f := RowsCarrying(init, col, a);
      RowsCarryingLast(rows, col, a);
      if Carries(last, col, a) {
        assert (f + [last])[..|f|] == f;
      } else {
        assert f + [] == f;
      }
    }
  }

  /** For a selected affiliation that occurs, the top-affiliation chart has exactly one
      bar: that affiliation with the number of rows that carry it. */
  lemma SelectedTop(t: AffiliationTable, selected: string)
    requires selected != All && AffiliationColumn(t).Some?
    requires CountCarrying(t.rows, AffiliationColumn(t).value, selected) > 0
    ensures SelectAffiliation(t, selected).Ok?
    ensures TopAffiliations(SelectAffiliation(t, selected).value) ==
      Ok([AffiliationCount(selected, CountCarrying(t.rows, AffiliationColumn(t).value, selected))])
  {
    var col := AffiliationColumn(t).value;
    var s := SelectAffiliation(t, selected).value;
    var n := CountCarrying(t.rows, col, selected);
    assert s.rows == RowsCarrying(t.rows, col, selected);
    CountAfterSelect(t.rows, col, selected);
    assert AffiliationColumn(s) == Some(col);
    OnlyValue(s.rows, col, selected, n);
  }

  /** When `a` is the only value of column `col`, occurring `n > 0` times, the top list is
      `a` with `n`. */
  lemma OnlyValue(rows: seq<Row>, col: nat, a: string, n: nat)
    requires n > 0 && CountCarrying(rows, col, a) == n
    requires forall b :: b != a ==> CountCarrying(rows, col, b) == 0
    ensures TopValues(ColumnValues(rows, col)) == [AffiliationCount(a, n)]
  {
    var values := ColumnValues(rows, col);
    var top := TopValues(values);
    TopOfColumn(rows, col, values, top);
    assert forall i :: 0 <= i < |top| ==> top[i].affiliation == a && top[i].count == n;
    DistinctFirstTwo(top);
    assert |top| < 2;
    assert exists i :: 0 <= i < |top| && top[i].affiliation == a;
    TopOfOne(top, a, n);
  }

  /** A list of distinct affiliations that are all `a` is `a`'s entry alone. */
  lemma TopOfOne(top: seq<AffiliationCount>, a: string, n: nat)
    requires DistinctAffiliations(top)
    requires forall i :: 0 <= i < |top| ==> top[i].affiliation == a && top[i].count == n
    requires exists i :: 0 <= i < |top| && top[i].affiliation == a
    ensures top == [AffiliationCount(a, n)]
  {
    DistinctFirstTwo(top);
    assert |top| < 2;
  }

  /** In a list of distinct affiliations the first two differ. */
  lemma DistinctFirstTwo(top: seq<AffiliationCount>)
    requires DistinctAffiliations(top)
    ensures |top| >= 2 ==> top[0].affiliation != top[1].affiliation
  {
  }

  /** A selected affiliation that no row carries gives an empty table and an empty chart. */
  lemma SelectAbsent(t: AffiliationTable, selected: string)
    requires selected != All && AffiliationColumn(t).Some?
    requires forall i :: 0 <= i < |t.rows| ==> !Carries(t.rows[i], AffiliationColumn(t).value, selected)
    ensures SelectAffiliation(t, selected) == Ok(t.(rows := []))
    ensures TopAffiliations(t.(rows := [])) == Ok([])
  {
    assert Tally([]) == [];
  }

  /** The laureate table of the example: two rows for 1901 and one for 1902. */
  function ExampleLaureates(): LaureateTable {
    LaureateTable(
      ["Physics", "Chemistry"],
      [ LaureateRow(1901, [Some("A"), None]),
        LaureateRow(1901, [None, Some("B")]),
        LaureateRow(1902, [Some("C"), None]) ])
  }

  /** With every category and the range 1901-1901 the filtered table holds exactly the
      two 1901 rows. */
  lemma ExampleView()
    ensures NobelView(ExampleLaureates(), 1901, 1901, All) ==
      Ok(ExampleLaureates().(rows := ExampleLaureates().rows[..2]))
  {
    FirstTwoInRange(ExampleLaureates(), 1901, 1901);
  }

  /** The trend of that view has one laureate for each of (1901, Physics) and
      (1901, Chemistry). */
  lemma ExampleTrend()
    ensures TrendCounts(ExampleLaureates(), 1901, 1901, All) ==
      Ok(map[(1901, "Physics") := 1, (1901, "Chemistry") := 1])
  {
    ExampleView();
    var view := ExampleLaureates().(rows := ExampleLaureates().rows[..2]);
    MeltTwoByTwo(view);
    var long := Melt(view);
    GroupFour(long[0], long[1], long[2], long[3]);
    assert long == [long[0], long[1], long[2], long[3]];
  }

  /** Of three rows, when only the first two lie in the year range, the filter keeps those two. */
  lemma FirstTwoInRange(t: LaureateTable, lo: int, hi: int)
    requires |t.rows| == 3
    requires InYearRange(t.rows[0], lo, hi) && InYearRange(t.rows[1], lo, hi) && !InYearRange(t.rows[2], lo, hi)
    ensures FilterYears(t, lo, hi) == t.(rows := t.rows[..2])
  {
    var p := (row: LaureateRow) => InYearRange(row, lo, hi);
    var s := t.rows;
    assert s[..2][..1] == s[..1] && s[..1][..0] == [];
    assert s[..3][..2] == s[..2] && s == s[..3];
    assert Filter(s[..1], p) == [s[0]];
    assert Filter(s[..2], p) == [s[0], s[1]] == s[..2];
    assert Filter(s, p) == s[..2];
  }

  /** Melting two rows of two categories: the first category's cells, then the second's. */
  lemma MeltTwoByTwo(t: LaureateTable)
    requires WellFormed(t) && |t.categories| == 2 && |t.rows| == 2
    ensures Melt(t) == [
      LongRow(t.rows[0].year, t.categories[0], t.rows[0].cells[0]),
      LongRow(t.rows[1].year, t.categories[0], t.rows[1].cells[0]),
      LongRow(t.rows[0].year, t.categories[1], t.rows[0].cells[1]),
      LongRow(t.rows[1].year, t.categories[1], t.rows[1].cells[1]) ]
  {
    assert MeltFirst(t, 1) == [] + MeltColumn(t.rows, 0, t.categories[0]);
  }

  /** Two groups of two long rows, each with one laureate: each group counts one. */
  lemma GroupFour(a: LongRow, b: LongRow, c: LongRow, d: LongRow)
    requires KeyOf(a) == KeyOf(b) && KeyOf(c) == KeyOf(d) && KeyOf(a) != KeyOf(c)
    requires a.laureate.Some? && b.laureate.None? && c.laureate.None? && d.laureate.Some?
    ensures GroupCounts([a, b, c, d]) == map[KeyOf(a) := 1, KeyOf(c) := 1]
  {
    GroupThree(a, b, c);
    GroupCountsStep([a, b, c], d);
    assert [a, b, c] + [d] == [a, b, c, d];
  }

  /** The first three of those rows: the second group has no laureate yet. */
  lemma GroupThree(a: LongRow, b: LongRow, c: LongRow)
    requires KeyOf(a) == KeyOf(b) && KeyOf(a) != KeyOf(c)
    requires a.laureate.Some? && b.laureate.None? && c.laureate.None?
    ensures GroupCounts([a, b, c]) == map[KeyOf(a) := 1, KeyOf(c) := 0]
  {
    GroupTwo(a, b);
    GroupCountsStep([a, b], c);
    assert [a, b] + [c] == [a, b, c];
  }

  /** The first two: one group with one laureate. */
  lemma GroupTwo(a: LongRow, b: LongRow)
    requires KeyOf(a) == KeyOf(b) && a.laureate.Some? && b.laureate.None?
    ensures GroupCounts([a, b]) == map[KeyOf(a) := 1]
  {
    GroupCountsStep([], a);
    assert [] + [a] == [a];
    GroupCountsStep([a], b);
    assert [a] + [b] == [a, b];
  }

  /** One step of the group count: the last long row adds to its own group only. */
  lemma GroupCountsStep(long: seq<LongRow>, l: LongRow)
    ensures GroupCounts(long + [l]) == Bump(GroupCounts(long), l)
  {
    var s := long + [l];
    assert s[..|s| - 1] == long && s[|s| - 1] == l;
  }

  /** An affiliation table with an incomplete row and a repeated row. */
  function ExampleAffiliations(): AffiliationTable {
    AffiliationTable(
      ["Affiliation", "Laureate"],
      [ [Some("Harvard University"), Some("A")],
        [Some("Harvard University"), Some("A")],
        [Some("Stanford University"), None],
        [Some("Stanford University"), Some("B")] ])
  }

  /** Cleaning drops the incomplete row and the repeated copy, keeping the complete
      distinct rows in order. */
  lemma ExampleClean()
    ensures CleanAffiliations(ExampleAffiliations()).rows ==
      [ [Some("Harvard University"), Some("A")], [Some("Stanford University"), Some("B")] ]
  {
    var t := ExampleAffiliations();
    var rows: seq<Row> := t.rows;
    assert rows[2][1] == None;
    assert rows == [rows[0], rows[0], rows[2], rows[3]];
    MaskFour(rows[0], rows[2], rows[3], Complete);
    DedupThree(rows[0], rows[3]);
  }

  /** A mask over `a, a, c, d` that keeps `a` and `d` but not `c`. */
  lemma MaskFour<T>(a: T, c: T, d: T, p: T -> bool)
    requires p(a) && !p(c) && p(d)
    ensures Filter([a, a, c, d], p) == [a, a, d]
  {
    assert [a, a, c, d][..3] == [a, a, c];
    assert [a, a, c][..2] == [a, a];
    assert [a, a][..1] == [a];
    assert [a][..0] == [];
    assert Filter([a], p) == [a];
    assert Filter([a, a], p) == [a, a];
    assert Filter([a, a, c], p) == [a, a];
  }

  /** Deduplicating `a, a, d` with `a != d` gives `a, d`. */
  lemma DedupThree<T>(a: T, d: T)
    requires a != d
    ensures Dedup([a, a, d]) == [a, d]
  {
    assert [a, a, d][..2] == [a, a];
    assert [a, a][..1] == [a];
  }
}
