/**
 * The two tables of the dashboard. The table without affiliations has the integer
 * `Year` column first and one column per prize category after it; the table with
 * affiliations has string columns only, one of them labelled "Affiliation".
 */
module Tables {
  import opened Results

  /** One cell; `None` stands for the pandas missing value. */
  type Cell = Option<string>

  /** A row of the affiliation table: one cell per column. */
  type Row = seq<Cell>

  /** The table with affiliations (read from the "Nobel laureates by affiliation" table). */
  datatype AffiliationTable = AffiliationTable(columns: seq<string>, rows: seq<Row>)

  /** A row of the laureate table: its year and one cell per category column. */
  datatype LaureateRow = LaureateRow(year: int, cells: seq<Cell>)

  /** The table without affiliations: `categories` are the labels of the columns after
      `Year` (`columns[1:]` in the source); each row holds its year and its cells. */
  datatype LaureateTable = LaureateTable(categories: seq<string>, rows: seq<LaureateRow>)

  /** Every laureate row has one cell per category column. */
  predicate WellFormed(t: LaureateTable) {
    forall i :: 0 <= i < |t.rows| ==> |t.rows[i].cells| == |t.categories|
  }

  /** The label of the column the affiliation selector and counter read. */
  const AffiliationLabel: string := "Affiliation"

  /** `row` carries the affiliation `a` in column `col` (a missing cell carries none). */
  predicate Carries(row: Row, col: nat, a: string) {
    col < |row| && row[col] == Some(a)
  }
}
