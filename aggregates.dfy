/**
 * The aggregations fed to the two charts: the top-10 affiliation counts
 * (`value_counts().head(10)`, app.py line 42) and the per-(Year, Category) counts of the
 * melted laureate table (`melt` then `groupby(...).count()`, lines 54-55).
 */
module Aggregates {
  import opened Results
  import opened Seqs
  import opened Tables
  import opened Filters

  // ================================================================ value_counts

  /** One entry of `value_counts`: an affiliation and how many rows carry it. */
  datatype AffiliationCount = AffiliationCount(affiliation: string, count: nat)

  /** How many of `rows` carry affiliation `a` in column `col`. */
  function CountCarrying(rows: seq<Row>, col: nat, a: string): nat {
    if |rows| == 0 then 0
    else CountCarrying(rows[..|rows| - 1], col, a) + (if Carries(rows[|rows| - 1], col, a) then 1 else 0)
  }

  /** The non-missing cells of column `col`, in row order: what `value_counts` tallies
      (it ignores missing cells). Each value occurs once per row that carries it. */
  function ColumnValues(rows: seq<Row>, col: nat): (r: seq<string>)
    ensures forall a :: multiset(r)[a] == CountCarrying(rows, col, a)
  {
    if |rows| == 0 then []
    else
      var init := ColumnValues(rows[..|rows| - 1], col);
      var last := rows[|rows| - 1];
      if col < |last| && last[col].Some? then init + [last[col].value] else init
  }

  /** Entries are in non-increasing order of count. */
  ghost predicate Descending(s: seq<AffiliationCount>) {
    forall i, j :: 0 <= i < j < |s| ==> s[i].count >= s[j].count
  }

  /** No affiliation has two entries. */
  ghost predicate DistinctAffiliations(s: seq<AffiliationCount>) {
    forall i, j :: 0 <= i < j < |s| ==> s[i].affiliation != s[j].affiliation
  }

  /** `e`'s affiliation has no entry in `s`. */
  ghost predicate Fresh(e: AffiliationCount, s: seq<AffiliationCount>) {
    forall k :: 0 <= k < |s| ==> s[k].affiliation != e.affiliation
  }

  /** One entry per distinct value, in order of first occurrence, with its number of
      occurrences. */
  function Tally(values: seq<string>): (r: seq<AffiliationCount>)
    ensures DistinctAffiliations(r)
    ensures forall i :: 0 <= i < |r| ==> r[i].count == multiset(values)[r[i].affiliation] > 0
    ensures forall a :: a in values ==> exists i :: 0 <= i < |r| && r[i].affiliation == a
  {
    var d := Dedup(values);
    var r := seq(|d|, i requires 0 <= i < |d| => AffiliationCount(d[i], multiset(values)[d[i]]));
    assert forall i :: 0 <= i < |d| ==> d[i] in values;
    assert forall a :: a in values ==> a in d && r[IndexOf(d, a)].affiliation == a;
    r
  }

  /** Places `e` in front of the first entry whose count does not exceed its own. */
  function Insert(e: AffiliationCount, s: seq<AffiliationCount>): (r: seq<AffiliationCount>)
    ensures multiset(r) == multiset(s) + multiset{e}
  {
    if |s| == 0 then [e]
    else if e.count >= s[0].count then [e] + s
    else
      assert s == [s[0]] + s[1..];
      [s[0]] + Insert(e, s[1..])
  }

  /** Inserting an entry with count at most `c` among entries with counts at most `c`
      keeps every count at most `c`. */
  lemma {:induction false} InsertBelow(e: AffiliationCount, s: seq<AffiliationCount>, c: nat)
    requires e.count <= c && forall k :: 0 <= k < |s| ==> s[k].count <= c
    ensures forall k :: 0 <= k < |Insert(e, s)| ==> Insert(e, s)[k].count <= c
  {
    if |s| > 0 && e.count < s[0].count {
      InsertBelow(e, s[1..], c);
    }
  }

  /** Inserting an entry whose affiliation is not `a` among such entries leaves `a` absent. */
  lemma {:induction false} InsertAvoids(e: AffiliationCount, s: seq<AffiliationCount>, a: string)
    requires e.affiliation != a && forall k :: 0 <= k < |s| ==> s[k].affiliation != a
    ensures forall k :: 0 <= k < |Insert(e, s)| ==> Insert(e, s)[k].affiliation != a
  {
    if |s| > 0 && e.count < s[0].count {
      InsertAvoids(e, s[1..], a);
    }
  }

  /** Inserting into a descending list keeps it descending. */
  lemma {:induction false} InsertDescending(e: AffiliationCount, s: seq<AffiliationCount>)
    requires Descending(s)
    ensures Descending(Insert(e, s))
  {
    if |s| > 0 && e.count < s[0].count {
      var rest := Insert(e, s[1..]);
      InsertDescending(e, s[1..]);
      InsertBelow(e, s[1..], s[0].count);
      assert Insert(e, s) == [s[0]] + rest;
    }
  }

  /** Inserting an entry with a new affiliation keeps the affiliations distinct. */
  lemma {:induction false} InsertDistinct(e: AffiliationCount, s: seq<AffiliationCount>)
    requires DistinctAffiliations(s) && Fresh(e, s)
    ensures DistinctAffiliations(Insert(e, s))
  {
    if |s| > 0 && e.count < s[0].count {
      var rest := Insert(e, s[1..]);
      InsertDistinct(e, s[1..]);
      InsertAvoids(e, s[1..], s[0].affiliation);
      assert Insert(e, s) == [s[0]] + rest;
    }
  }

  /** The descending sort of `value_counts`, by insertion (the order of equal counts is
      not part of the model). */
  function SortByCount(s: seq<AffiliationCount>): (r: seq<AffiliationCount>)
    ensures multiset(r) == multiset(s)
  {
    if |s| == 0 then []
    else
      assert s == [s[0]] + s[1..];
      Insert(s[0], SortByCount(s[1..]))
  }

  /** The sort yields a descending permutation of its input that keeps distinct
      affiliations distinct. */
  lemma {:induction false} SortByCountSpec(s: seq<AffiliationCount>)
    ensures |SortByCount(s)| == |s|
    ensures Descending(SortByCount(s))
    ensures DistinctAffiliations(s) ==> DistinctAffiliations(SortByCount(s))
  {
    assert |SortByCount(s)| == |multiset(SortByCount(s))|;
    if |s| > 0 {
      var rest := SortByCount(s[1..]);
      SortByCountSpec(s[1..]);
      InsertDescending(s[0], rest);
      if DistinctAffiliations(s) {
        forall k | 0 <= k < |rest| ensures rest[k].affiliation != s[0].affiliation {
          assert rest[k] in multiset(s[1..]);
        }
        InsertDistinct(s[0], rest);
      }
    }
  }

  /** `Series.head(n)`: at most the first `n` entries. */
  function Head(s: seq<AffiliationCount>, n: nat): (r: seq<AffiliationCount>)
    ensures |r| <= n && |r| <= |s|
    ensures |r| == n || |r| == |s|
    ensures forall i :: 0 <= i < |r| ==> r[i] == s[i]
  {
    if |s| <= n then s else s[..n]
  }

  /** `value_counts().head(10)` on a list of values: at most ten entries with distinct
      values, in non-increasing order of count, each with its number of occurrences; a
      value that occurs but is not listed occurs no more often than every listed one,
      and then ten entries are listed. */
  function TopValues(values: seq<string>): (r: seq<AffiliationCount>)
    ensures |r| <= 10
    ensures DistinctAffiliations(r)
    ensures Descending(r)
    ensures forall i :: 0 <= i < |r| ==> r[i].count == multiset(values)[r[i].affiliation] > 0
    ensures forall a :: a in values && (forall i :: 0 <= i < |r| ==> r[i].affiliation != a) ==>
      |r| == 10 && forall i :: 0 <= i < |r| ==> r[i].count >= multiset(values)[a]
  {
    var tally := Tally(values);
    var sorted := SortByCount(tally);
    var r := Head(sorted, 10);
    TopValuesFacts(values, tally, sorted, r);
    TopValuesComplete(values, tally, sorted, r);
    r
  }

  /** The listed entries of `TopValues` are the first ten of the sorted tally. */
  lemma TopValuesFacts(values: seq<string>, tally: seq<AffiliationCount>,
                       sorted: seq<AffiliationCount>, r: seq<AffiliationCount>)
    requires tally == Tally(values) && sorted == SortByCount(tally) && r == Head(sorted, 10)
    ensures DistinctAffiliations(r) && Descending(r)
    ensures forall i :: 0 <= i < |r| ==> r[i].count == multiset(values)[r[i].affiliation] > 0
  {
    SortByCountSpec(tally);
    forall i | 0 <= i < |r| ensures r[i].count == multiset(values)[r[i].affiliation] > 0 {
      assert r[i] == sorted[i];
      assert multiset(sorted)[r[i]] > 0;
      assert r[i] in tally;
    }
    forall i, j | 0 <= i < j < |r| ensures r[i].count >= r[j].count && r[i].affiliation != r[j].affiliation {
      assert r[i] == sorted[i] && r[j] == sorted[j];
    }
  }

  /** The omitted values of `TopValues` are those ranked after the tenth entry. */
  lemma TopValuesComplete(values: seq<string>, tally: seq<AffiliationCount>,
                          sorted: seq<AffiliationCount>, r: seq<AffiliationCount>)
    requires tally == Tally(values) && sorted == SortByCount(tally) && r == Head(sorted, 10)
    ensures forall a :: a in values && (forall i :: 0 <= i < |r| ==> r[i].affiliation != a) ==>
      |r| == 10 && forall i :: 0 <= i < |r| ==> r[i].count >= multiset(values)[a]
  {
    SortByCountSpec(tally);
    forall a | a in values && (forall i :: 0 <= i < |r| ==> r[i].affiliation != a)
      ensures |r| == 10 && forall i :: 0 <= i < |r| ==> r[i].count >= multiset(values)[a]
    {
      var k :| 0 <= k < |tally| && tally[k].affiliation == a;
      var e := tally[k];
      assert e in multiset(sorted);
      OmittedRanksLower(sorted, r, e);
    }
  }

  /** An entry of a descending list that is not among its first ten comes after ten
      entries with counts at least its own. */
  lemma OmittedRanksLower(sorted: seq<AffiliationCount>, r: seq<AffiliationCount>, e: AffiliationCount)
    requires Descending(sorted) && r == Head(sorted, 10) && e in sorted
    requires forall i :: 0 <= i < |r| ==> r[i].affiliation != e.affiliation
    ensures |r| == 10 && forall i :: 0 <= i < |r| ==> r[i].count >= e.count
  {
    var p :| 0 <= p < |sorted| && sorted[p] == e;
    assert p >= |r|;
    forall i | 0 <= i < |r| ensures r[i].count >= e.count {
      assert r[i] == sorted[i];
    }
  }

  /** `filtered['Affiliation'].value_counts().head(10)` (line 42); a table without an
      Affiliation column raises `KeyError`. */
  function TopAffiliations(t: AffiliationTable): (r: Result<seq<AffiliationCount>>)
    ensures AffiliationColumn(t).None? <==> r.KeyError?
    ensures r.Ok? ==>
      var col := AffiliationColumn(t).value;
      && |r.value| <= 10
      && DistinctAffiliations(r.value)
      && Descending(r.value)
      && (forall i :: 0 <= i < |r.value| ==>
            r.value[i].count == CountCarrying(t.rows, col, r.value[i].affiliation) > 0)
      && (forall a ::
            (CountCarrying(t.rows, col, a) > 0 &&
             forall i :: 0 <= i < |r.value| ==> r.value[i].affiliation != a) ==>
              |r.value| == 10 && forall i :: 0 <= i < |r.value| ==> r.value[i].count >= CountCarrying(t.rows, col, a))
  {
    match AffiliationColumn(t)
    case None => KeyError(AffiliationLabel)
    case Some(col) =>
      var values := ColumnValues(t.rows, col);
      var top := TopValues(values);
      TopOfColumn(t.rows, col, values, top);
      Ok(top)
  }

  /** `TopValues` of a column, restated in terms of the rows that carry each value. */
  lemma TopOfColumn(rows: seq<Row>, col: nat, values: seq<string>, top: seq<AffiliationCount>)
    requires values == ColumnValues(rows, col) && top == TopValues(values)
    ensures forall i :: 0 <= i < |top| ==> top[i].count == CountCarrying(rows, col, top[i].affiliation) > 0
    ensures forall a ::
      (CountCarrying(rows, col, a) > 0 && forall i :: 0 <= i < |top| ==> top[i].affiliation != a) ==>
        |top| == 10 && forall i :: 0 <= i < |top| ==> top[i].count >= CountCarrying(rows, col, a)
  {
    forall i | 0 <= i < |top| ensures top[i].count == CountCarrying(rows, col, top[i].affiliation) > 0 {
      assert top[i].count == multiset(values)[top[i].affiliation];
    }
    forall a | CountCarrying(rows, col, a) > 0 && forall i :: 0 <= i < |top| ==> top[i].affiliation != a
      ensures |top| == 10 && forall i :: 0 <= i < |top| ==> top[i].count >= CountCarrying(rows, col, a)
    {
      assert multiset(values)[a] == CountCarrying(rows, col, a);
      assert a in values;
    }
  }

  // ================================================================ melt and groupby

  /** One row of the long table `melt` produces: the `Year`, the `Category` (the name of
      the column the cell came from) and the `Laureate` cell. */
  datatype LongRow = LongRow(year: int, category: string, laureate: Cell)

  /** The long rows of column `col`, one per wide row, in row order. */
  function MeltColumn(rows: seq<LaureateRow>, col: nat, category: string): seq<LongRow>
    requires forall i :: 0 <= i < |rows| ==> col < |rows[i].cells|
  {
    seq(|rows|, i requires 0 <= i < |rows| => LongRow(rows[i].year, category, rows[i].cells[col]))
  }

  /** The long rows of the first `n` category columns, column after column. */
  function MeltFirst(t: LaureateTable, n: nat): (r: seq<LongRow>)
    requires WellFormed(t) && n <= |t.categories|
    ensures |r| == n * |t.rows|
  {
    if n == 0 then []
    else MeltFirst(t, n - 1) + MeltColumn(t.rows, n - 1, t.categories[n - 1])
  }

  /** `melt(id_vars=['Year'], var_name='Category', value_name='Laureate')`: pandas stacks
      the value columns one after another, one long row per (row, category column) pair;
      `MeltCell` and `MeltIndex` say where each pair lands. */
  function Melt(t: LaureateTable): (r: seq<LongRow>)
    requires WellFormed(t)
    ensures |r| == |t.rows| * |t.categories|
  {
    MeltFirst(t, |t.categories|)
  }

  /** The cell of row `i` in category column `j` becomes long row `j * |rows| + i`. */
  lemma MeltCell(t: LaureateTable, j: nat, i: nat)
    requires WellFormed(t) && j < |t.categories| && i < |t.rows|
    ensures j * |t.rows| + i < |Melt(t)|
    ensures Melt(t)[j * |t.rows| + i] == LongRow(t.rows[i].year, t.categories[j], t.rows[i].cells[j])
  {
    MeltAt(t, |t.categories|, j, i);
  }

  /** Every long row is the cell of some row `i` in some category column `j`, at position
      `j * |rows| + i`. */
  lemma MeltIndex(t: LaureateTable, p: nat)
    requires WellFormed(t) && p < |Melt(t)|
    ensures exists j: nat, i: nat ::
      && j < |t.categories| && i < |t.rows| && p == j * |t.rows| + i
      && Melt(t)[p] == LongRow(t.rows[i].year, t.categories[j], t.rows[i].cells[j])
  {
    MeltFirstIndex(t, |t.categories|, p);
  }

  /** `MeltIndex` for the first `n` columns. */
  lemma {:induction false} MeltFirstIndex(t: LaureateTable, n: nat, p: nat)
    requires WellFormed(t) && n <= |t.categories| && p < |MeltFirst(t, n)|
    ensures exists j: nat, i: nat ::
      && j < n && i < |t.rows| && p == j * |t.rows| + i
      && MeltFirst(t, n)[p] == LongRow(t.rows[i].year, t.categories[j], t.rows[i].cells[j])
  {
    var m := |t.rows|;
    var before := MeltFirst(t, n - 1);
    assert |before| == (n - 1) * m;
    if p < |before| {
      MeltFirstIndex(t, n - 1, p);
      assert MeltFirst(t, n)[p] == before[p];
    } else {
      var j, i := n - 1, p - (n - 1) * m;
      assert (n - 1) * m + m == n * m;
      assert p == j * m + i;
      assert MeltFirst(t, n)[p] == LongRow(t.rows[i].year, t.categories[j], t.rows[i].cells[j]);
    }
  }

  /** The years of the wide rows. */
  ghost function Years(t: LaureateTable): set<int> {
    set i | 0 <= i < |t.rows| :: t.rows[i].year
  }

  /** Each long row carries the year of a wide row and the label of a category column. */
  lemma {:induction false} MeltFirstSources(t: LaureateTable, n: nat)
    requires WellFormed(t) && n <= |t.categories|
    ensures forall l :: l in MeltFirst(t, n) ==> l.year in Years(t) && l.category in t.categories
  {
    if n > 0 {
      MeltFirstSources(t, n - 1);
      var column := MeltColumn(t.rows, n - 1, t.categories[n - 1]);
      assert forall l :: l in column ==> l.year in Years(t) && l.category == t.categories[n - 1];
    }
  }

  /** Where the cell of row `i`, column `j` lands in the long rows of the first `n` columns. */
  lemma {:induction false} MeltAt(t: LaureateTable, n: nat, j: nat, i: nat)
    requires WellFormed(t) && n <= |t.categories| && j < n && i < |t.rows|
    ensures j * |t.rows| + i < |MeltFirst(t, n)|
    ensures MeltFirst(t, n)[j * |t.rows| + i] == LongRow(t.rows[i].year, t.categories[j], t.rows[i].cells[j])
  {
    var m := |t.rows|;
    assert (n - 1) * m + m == n * m;
    if j < n - 1 {
      MeltAt(t, n - 1, j, i);
      assert (j + 1) * m <= (n - 1) * m by { MulMonotone(j + 1, n - 1, m); }
    } else {
      assert j * m + i == (n - 1) * m + i;
    }
  }

  lemma MulMonotone(a: nat, b: nat, m: nat)
    requires a <= b
    ensures a * m <= b * m
  {
  }

  /** The grouping key `(Year, Category)` of a long row. */
  function KeyOf(l: LongRow): (int, string) {
    (l.year, l.category)
  }

  /** The keys that occur among the long rows. */
  ghost function KeysOf(long: seq<LongRow>): set<(int, string)> {
    set i | 0 <= i < |long| :: KeyOf(long[i])
  }

  /** How many long rows have key `k`. */
  function RowsFor(long: seq<LongRow>, k: (int, string)): nat {
    if |long| == 0 then 0
    else RowsFor(long[..|long| - 1], k) + (if KeyOf(long[|long| - 1]) == k then 1 else 0)
  }

  /** How many long rows with key `k` have a non-missing Laureate cell. */
  function NonMissing(long: seq<LongRow>, k: (int, string)): nat {
    if |long| == 0 then 0
    else NonMissing(long[..|long| - 1], k)
         + (if KeyOf(long[|long| - 1]) == k && long[|long| - 1].laureate.Some? then 1 else 0)
  }

  /** `groupby(['Year', 'Category']).count()`: one group per key that occurs, whose
      value is the number of non-missing Laureate cells of that key, which is at most the
      number of long rows of that key (a key whose cells are all missing counts 0). */
  function GroupCounts(long: seq<LongRow>): (m: map<(int, string), nat>)
    ensures m.Keys == KeysOf(long)
    ensures forall k :: k in m ==> m[k] == NonMissing(long, k) <= RowsFor(long, k)
  {
    if |long| == 0 then map[]
    else
      var init := long[..|long| - 1];
      var l := long[|long| - 1];
      var m := GroupCounts(init);
      var k := KeyOf(l);
      AbsentKey(init, k);
      assert KeysOf(long) == KeysOf(init) + {k} by {
        assert forall i :: 0 <= i < |init| ==> long[i] == init[i];
      }
      Bump(m, l)
  }

  /** Counting one more long row: its own group grows by one if its cell is present. */
  function Bump(m: map<(int, string), nat>, l: LongRow): map<(int, string), nat> {
    m[KeyOf(l) := (if KeyOf(l) in m then m[KeyOf(l)] else 0) + (if l.laureate.Some? then 1 else 0)]
  }

  /** A key that does not occur has no rows. */
  lemma {:induction false} AbsentKey(long: seq<LongRow>, k: (int, string))
    ensures k !in KeysOf(long) ==> RowsFor(long, k) == 0 && NonMissing(long, k) == 0
  {
    if |long| > 0 {
      var init := long[..|long| - 1];
      AbsentKey(init, k);
      if k !in KeysOf(long) {
        assert k !in KeysOf(init) by {
          assert forall i :: 0 <= i < |init| ==> long[i] == init[i];
        }
      }
    }
  }

  /** The trend counts of lines 51-55: the year filter and projection, then melt and
      group count. An unknown category raises `KeyError`. */
  function TrendCounts(t: LaureateTable, lo: int, hi: int, category: string): (r: Result<map<(int, string), nat>>)
    requires WellFormed(t)
    ensures r.KeyError? <==> category != All && category !in t.categories
    ensures r.Ok? ==> forall k :: k in r.value ==> lo <= k.0 <= hi
    ensures r.Ok? && category != All ==> forall k :: k in r.value ==> k.1 == category
    ensures r.Ok? ==>
      var view := NobelView(t, lo, hi, category).value;
      && r.value.Keys == WideKeys(view)
      && forall k :: k in r.value ==> r.value[k] == CellCount(view, |view.categories|, k)
  {
    match NobelView(t, lo, hi, category)
    case KeyError(key) => KeyError(key)
    case Ok(view) =>
      var long := Melt(view);
      var m := GroupCounts(long);
      MeltFirstSources(view, |view.categories|);
      assert forall n :: 0 <= n < |long| ==> long[n] in long;
      GroupsOfView(view);
      Ok(m)
  }

  /** The group counts of a melted table: one group per (row year, category label) pair,
      counting the non-missing cells of that year under that label. */
  lemma GroupsOfView(view: LaureateTable)
    requires WellFormed(view)
    ensures GroupCounts(Melt(view)).Keys == WideKeys(view)
    ensures forall k :: k in GroupCounts(Melt(view)) ==>
      GroupCounts(Melt(view))[k] == CellCount(view, |view.categories|, k)
  {
    var m := GroupCounts(Melt(view));
    MeltKeys(view);
    forall k | k in m ensures m[k] == CellCount(view, |view.categories|, k) {
      MeltFirstNonMissing(view, |view.categories|, k);
    }
  }

  /** The (Year, Category) pairs of a wide table: the year of a row with the label of a
      category column. */
  ghost function WideKeys(t: LaureateTable): set<(int, string)> {
    set i, j | 0 <= i < |t.rows| && 0 <= j < |t.categories| :: (t.rows[i].year, t.categories[j])
  }

  /** The keys of the melted table are exactly the pairs of a row's year and a category
      label, so every (year, category) pair of the view gets a group. */
  lemma MeltKeys(t: LaureateTable)
    requires WellFormed(t)
    ensures KeysOf(Melt(t)) == WideKeys(t)
  {
    var long := Melt(t);
    forall k | k in KeysOf(long) ensures k in WideKeys(t) {
      var p :| 0 <= p < |long| && KeyOf(long[p]) == k;
      MeltIndex(t, p);
      var j: nat, i: nat :| j < |t.categories| && i < |t.rows| && p == j * |t.rows| + i
        && long[p] == LongRow(t.rows[i].year, t.categories[j], t.rows[i].cells[j]);
      assert k == (t.rows[i].year, t.categories[j]);
    }
    forall k | k in WideKeys(t) ensures k in KeysOf(long) {
      var i, j :| 0 <= i < |t.rows| && 0 <= j < |t.categories| && k == (t.rows[i].year, t.categories[j]);
      MeltCell(t, j, i);
      assert KeyOf(long[j * |t.rows| + i]) == k;
    }
  }

  // ================================================================ counts on the wide table

  /** How many rows of year `y` have a non-missing cell in column `col`. */
  function ColumnCount(rows: seq<LaureateRow>, col: nat, y: int): nat {
    if |rows| == 0 then 0
    else
      var last := rows[|rows| - 1];
      ColumnCount(rows[..|rows| - 1], col, y) + (if last.year == y && col < |last.cells| && last.cells[col].Some? then 1 else 0)
  }

  /** The non-missing cells of year `k.0` in the columns labelled `k.1` among the first `n`. */
  function CellCount(t: LaureateTable, n: nat, k: (int, string)): nat
    requires n <= |t.categories|
  {
    if n == 0 then 0
    else CellCount(t, n - 1, k) + (if t.categories[n - 1] == k.1 then ColumnCount(t.rows, n - 1, k.0) else 0)
  }

  /** Counting over a concatenation adds the counts. */
  lemma {:induction false} NonMissingAppend(a: seq<LongRow>, b: seq<LongRow>, k: (int, string))
    ensures NonMissing(a + b, k) == NonMissing(a, k) + NonMissing(b, k)
    decreases |b|
  {
    if |b| > 0 {
      var b' := b[..|b| - 1];
      NonMissingAppend(a, b', k);
      assert (a + b)[..|a + b| - 1] == a + b';
    } else {
      assert a + b == a;
    }
  }

  /** The long rows of one column hold as many non-missing cells of key `k` as the column
      has for year `k.0`, when the column is labelled `k.1`, and none otherwise. */
  lemma {:induction false} NonMissingColumn(rows: seq<LaureateRow>, col: nat, category: string, k: (int, string))
    requires forall i :: 0 <= i < |rows| ==> col < |rows[i].cells|
    ensures NonMissing(MeltColumn(rows, col, category), k) == if category == k.1 then ColumnCount(rows, col, k.0) else 0
  {
    if |rows| > 0 {
      var init := rows[..|rows| - 1];
      NonMissingColumn(init, col, category, k);
      var column := MeltColumn(rows, col, category);
      assert column[..|column| - 1] == MeltColumn(init, col, category);
    }
  }

  /** Melting the first `n` columns keeps every non-missing cell, under its year and label. */
  lemma {:induction false} MeltFirstNonMissing(t: LaureateTable, n: nat, k: (int, string))
    requires WellFormed(t) && n <= |t.categories|
    ensures NonMissing(MeltFirst(t, n), k) == CellCount(t, n, k)
  {
    if n > 0 {
      var before := MeltFirst(t, n - 1);
      var column := MeltColumn(t.rows, n - 1, t.categories[n - 1]);
      assert MeltFirst(t, n) == before + column;
      MeltFirstNonMissing(t, n - 1, k);
      NonMissingAppend(before, column, k);
      NonMissingColumn(t.rows, n - 1, t.categories[n - 1], k);
      assert NonMissing(MeltFirst(t, n), k) == NonMissing(before, k) + NonMissing(column, k);
      assert CellCount(t, n, k) == CellCount(t, n - 1, k)
        + (if t.categories[n - 1] == k.1 then ColumnCount(t.rows, n - 1, k.0) else 0);
    } else {
      assert MeltFirst(t, 0) == [];
    }
  }

  /** With distinct labels only the column labelled `c` contributes. */
  lemma {:induction false} CellCountDistinct(t: LaureateTable, n: nat, k: (int, string))
    requires NoDuplicates(t.categories) && n <= |t.categories|
    ensures CellCount(t, n, k) ==
      if k.1 in t.categories[..n] then ColumnCount(t.rows, IndexOf(t.categories, k.1), k.0) else 0
  {
    if n > 0 {
      CellCountDistinct(t, n - 1, k);
      assert t.categories[..n] == t.categories[..n - 1] + [t.categories[n - 1]];
      if t.categories[n - 1] == k.1 {
        assert k.1 !in t.categories[..n - 1];
      } else if k.1 in t.categories[..n - 1] {
        var j :| 0 <= j < n - 1 && t.categories[j] == k.1;
        assert IndexOf(t.categories, k.1) <= j;
      }
    }
  }

  /** The trend count of `(y, c)` is the number of rows of year `y` whose `c` cell is not
      missing (for distinct category labels; a label that is not a column counts 0). */
  lemma TrendCountIsCellCount(t: LaureateTable, k: (int, string))
    requires WellFormed(t) && NoDuplicates(t.categories)
    ensures NonMissing(Melt(t), k) == if k.1 in t.categories then ColumnCount(t.rows, IndexOf(t.categories, k.1), k.0) else 0
  {
    MeltFirstNonMissing(t, |t.categories|, k);
    CellCountDistinct(t, |t.categories|, k);
    assert t.categories[..|t.categories|] == t.categories;
  }
}
