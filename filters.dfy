/**
 * The filter engine of `run_streamlit_app`: the year-range filter and category
 * projection (app.py lines 51-53, repeated at 65-67) and the affiliation selector
 * (line 41, repeated at 71-74).
 */
module Filters {
  import opened Results
  import opened Seqs
  import opened Tables

  /** The selector value that means "no selection". */
  const All: string := "All"

  /** `(Year >= lo) & (Year <= hi)` for one row. */
  predicate InYearRange(row: LaureateRow, lo: int, hi: int) {
    lo <= row.year <= hi
  }

  /** The rows whose year lies in `[lo, hi]`, in order. */
  function RowsInRange(rows: seq<LaureateRow>, lo: int, hi: int): seq<LaureateRow> {
    Filter(rows, (row: LaureateRow) => InYearRange(row, lo, hi))
  }

  /** The rows in range are exactly those of `rows` in range, as often and in the same order. */
  lemma RowsInRangeFacts(rows: seq<LaureateRow>, lo: int, hi: int)
    ensures forall row :: row in RowsInRange(rows, lo, hi) ==> row in rows && InYearRange(row, lo, hi)
    ensures forall row :: row in rows && InYearRange(row, lo, hi) ==> row in RowsInRange(rows, lo, hi)
    ensures forall row ::
      multiset(RowsInRange(rows, lo, hi))[row] == (if InYearRange(row, lo, hi) then multiset(rows)[row] else 0)
    ensures IsSubsequence(RowsInRange(rows, lo, hi), rows)
    ensures |RowsInRange(rows, lo, hi)| <= |rows|
    ensures (forall i :: 0 <= i < |rows| ==> !InYearRange(rows[i], lo, hi)) ==> RowsInRange(rows, lo, hi) == []
  {
    var p := (row: LaureateRow) => InYearRange(row, lo, hi);
    assert RowsInRange(rows, lo, hi) == Filter(rows, p);
    FilterFacts(rows, p);
  }

  /** The boolean-mask filter on `Year`: exactly the rows whose year lies in `[lo, hi]`,
      in their original order, and no row is added. */
  function FilterYears(t: LaureateTable, lo: int, hi: int): (r: LaureateTable)
    ensures r.categories == t.categories
    ensures forall row :: row in r.rows ==> row in t.rows && InYearRange(row, lo, hi)
    ensures forall i :: 0 <= i < |r.rows| ==> InYearRange(r.rows[i], lo, hi)
    ensures forall row :: row in t.rows && InYearRange(row, lo, hi) ==> row in r.rows
    ensures forall row :: multiset(r.rows)[row] == if InYearRange(row, lo, hi) then multiset(t.rows)[row] else 0
    ensures IsSubsequence(r.rows, t.rows)
    ensures |r.rows| <= |t.rows|
    ensures (forall i :: 0 <= i < |t.rows| ==> !InYearRange(t.rows[i], lo, hi)) ==> r.rows == []
    ensures WellFormed(t) ==> WellFormed(r)
  {
    RowsInRangeFacts(t.rows, lo, hi);
    RowsInRangeWellFormed(t, lo, hi);
    t.(rows := RowsInRange(t.rows, lo, hi))
  }

  /** Keeping some rows of a well-formed table leaves it well-formed. */
  lemma RowsInRangeWellFormed(t: LaureateTable, lo: int, hi: int)
    ensures WellFormed(t) ==> WellFormed(t.(rows := RowsInRange(t.rows, lo, hi)))
  {
    var rows := RowsInRange(t.rows, lo, hi);
    RowsInRangeFacts(t.rows, lo, hi);
    if WellFormed(t) {
      forall i | 0 <= i < |rows| ensures |rows[i].cells| == |t.categories| {
        assert rows[i] in t.rows;
      }
    }
  }

  /** The positions of the columns labelled `c`, in increasing order. */
  function Positions(labels: seq<string>, c: string): (r: seq<nat>)
    ensures forall k :: 0 <= k < |r| ==> r[k] < |labels| && labels[r[k]] == c
    ensures forall j :: 0 <= j < |labels| && labels[j] == c ==> j in r
    ensures forall k, l :: 0 <= k < l < |r| ==> r[k] < r[l]
  {
    if |labels| == 0 then []
    else
      var init := labels[..|labels| - 1];
      var p := Positions(init, c);
      if labels[|labels| - 1] == c then p + [|labels| - 1] else p
  }

  /** In a strictly increasing sequence the first element is below the second. */
  lemma IncreasingFirstTwo(p: seq<nat>)
    requires forall k, l :: 0 <= k < l < |p| ==> p[k] < p[l]
    ensures |p| >= 2 ==> p[0] < p[1]
  {
  }

  /** With distinct labels, the only column labelled `c` is its first one. */
  lemma PositionsDistinct(labels: seq<string>, c: string)
    requires NoDuplicates(labels) && c in labels
    ensures Positions(labels, c) == [IndexOf(labels, c)]
  {
    var p := Positions(labels, c);
    var k := IndexOf(labels, c);
    assert k in p;
    assert forall m :: 0 <= m < |p| ==> p[m] == k;
    IncreasingFirstTwo(p);
  }

  /** The row cut down to the cells at positions `pos`. */
  function ProjectRow(row: LaureateRow, pos: seq<nat>): (r: LaureateRow)
    requires forall k :: 0 <= k < |pos| ==> pos[k] < |row.cells|
    ensures r.year == row.year && |r.cells| == |pos|
    ensures forall k :: 0 <= k < |pos| ==> r.cells[k] == row.cells[pos[k]]
  {
    LaureateRow(row.year, seq(|pos|, k requires 0 <= k < |pos| => row.cells[pos[k]]))
  }

  /** `t[['Year', category]]` unless `category` is "All". The selection keeps the Year of
      every row and every column labelled `category` (pandas keeps all columns that share
      a label); a label that is not a column raises `KeyError`. */
  function Project(t: LaureateTable, category: string): (r: Result<LaureateTable>)
    requires WellFormed(t)
    ensures category == All ==> r == Ok(t)
    ensures category != All && category !in t.categories ==> r == KeyError(category)
    ensures r.Ok? ==> |r.value.rows| == |t.rows| && forall i :: 0 <= i < |t.rows| ==> r.value.rows[i].year == t.rows[i].year
    ensures category != All && category in t.categories ==>
      && r.Ok?
      && WellFormed(r.value)
      && r.value.categories == seq(|Positions(t.categories, category)|, _ => category)
      && |r.value.rows| == |t.rows|
      && forall i :: 0 <= i < |t.rows| ==> r.value.rows[i] == ProjectRow(t.rows[i], Positions(t.categories, category))
  {
    if category == All then Ok(t)
    else if category !in t.categories then KeyError(category)
    else
      var pos := Positions(t.categories, category);
      Ok(LaureateTable(
        seq(|pos|, _ => category),
        seq(|t.rows|, i requires 0 <= i < |t.rows| => ProjectRow(t.rows[i], pos))))
  }

  /** With distinct category labels the projection has columns exactly `Year, category`
      and every row keeps its year and its `category` cell, and nothing else. */
  lemma ProjectDistinct(t: LaureateTable, category: string)
    requires WellFormed(t) && NoDuplicates(t.categories)
    requires category != All && category in t.categories
    ensures Project(t, category).Ok?
    ensures Project(t, category).value.categories == [category]
    ensures |Project(t, category).value.rows| == |t.rows|
    ensures forall i :: 0 <= i < |t.rows| ==>
      Project(t, category).value.rows[i] == LaureateRow(t.rows[i].year, [t.rows[i].cells[IndexOf(t.categories, category)]])
  {
    PositionsDistinct(t.categories, category);
    var r := Project(t, category).value;
    var k := IndexOf(t.categories, category);
    forall i | 0 <= i < |t.rows|
      ensures r.rows[i] == LaureateRow(t.rows[i].year, [t.rows[i].cells[k]])
    {
      assert r.rows[i].cells == [t.rows[i].cells[k]];
    }
  }

  /** The table of lines 51-53 (and 65-67): the rows in the year range, projected. */
  function NobelView(t: LaureateTable, lo: int, hi: int, category: string): (r: Result<LaureateTable>)
    requires WellFormed(t)
    ensures r.Ok? ==> WellFormed(r.value) && |r.value.rows| <= |t.rows|
    ensures r.Ok? ==> forall i :: 0 <= i < |r.value.rows| ==> lo <= r.value.rows[i].year <= hi
    ensures category == All ==> r == Ok(FilterYears(t, lo, hi))
    ensures r.KeyError? <==> category != All && category !in t.categories
  {
    var inRange := FilterYears(t, lo, hi);
    Project(inRange, category)
  }

  /** The column index of "Affiliation", when there is such a column. */
  function AffiliationColumn(t: AffiliationTable): (r: Option<nat>)
    ensures r.Some? <==> AffiliationLabel in t.columns
    ensures r.Some? ==> r.value < |t.columns| && t.columns[r.value] == AffiliationLabel
    ensures r.Some? ==> forall j :: 0 <= j < r.value ==> t.columns[j] != AffiliationLabel
  {
    if AffiliationLabel in t.columns then Some(IndexOf(t.columns, AffiliationLabel)) else None
  }

  /** The boolean-mask selection `t[t['Affiliation'] == a]` on the rows, with the
      Affiliation cells in column `col`. */
  function RowsCarrying(rows: seq<Row>, col: nat, a: string): seq<Row> {
    Filter(rows, (row: Row) => Carries(row, col, a))
  }

  /** The selection of a non-empty sequence: the selection of all but the last row, then
      the last row when it carries `a`. */
  lemma RowsCarryingLast(rows: seq<Row>, col: nat, a: string)
    requires |rows| > 0
    ensures RowsCarrying(rows, col, a) ==
      RowsCarrying(rows[..|rows| - 1], col, a) + if Carries(rows[|rows| - 1], col, a) then [rows[|rows| - 1]] else []
  {
  }

  /** The rows carrying `a` are exactly those of `rows`, as often and in the same order. */
  lemma RowsCarryingFacts(rows: seq<Row>, col: nat, a: string)
    ensures forall row :: row in RowsCarrying(rows, col, a) ==> row in rows && Carries(row, col, a)
    ensures forall row :: row in rows && Carries(row, col, a) ==> row in RowsCarrying(rows, col, a)
    ensures forall row ::
      multiset(RowsCarrying(rows, col, a))[row] == (if Carries(row, col, a) then multiset(rows)[row] else 0)
    ensures IsSubsequence(RowsCarrying(rows, col, a), rows)
    ensures (forall i :: 0 <= i < |rows| ==> !Carries(rows[i], col, a)) ==> RowsCarrying(rows, col, a) == []
  {
    var p := (row: Row) => Carries(row, col, a);
    assert RowsCarrying(rows, col, a) == Filter(rows, p);
    FilterFacts(rows, p);
  }

  /** The affiliation selector: the table itself for "All"; otherwise the rows whose
      Affiliation cell equals the selection (a missing cell equals nothing), in order.
      Reading the Affiliation column of a table without one raises `KeyError`. */
  function SelectAffiliation(t: AffiliationTable, selected: string): (r: Result<AffiliationTable>)
    ensures selected == All ==> r == Ok(t)
    ensures selected != All && AffiliationColumn(t).None? ==> r == KeyError(AffiliationLabel)
    ensures selected != All && AffiliationColumn(t).Some? ==>
      var col := AffiliationColumn(t).value;
      && r.Ok?
      && r.value.columns == t.columns
      && (forall row :: row in r.value.rows ==> row in t.rows && Carries(row, col, selected))
      && (forall row :: row in t.rows && Carries(row, col, selected) ==> row in r.value.rows)
      && (forall row :: multiset(r.value.rows)[row] == if Carries(row, col, selected) then multiset(t.rows)[row] else 0)
      && IsSubsequence(r.value.rows, t.rows)
      && ((forall i :: 0 <= i < |t.rows| ==> !Carries(t.rows[i], col, selected)) ==> r.value.rows == [])
  {
    if selected == All then Ok(t)
    else
      match AffiliationColumn(t)
      case None => KeyError(AffiliationLabel)
      case Some(col) =>
        RowsCarryingFacts(t.rows, col, selected);
        Ok(t.(rows := RowsCarrying(t.rows, col, selected)))
  }
}
