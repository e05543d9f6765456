/**
 * `clean_data` (app.py lines 13-18): it normalises the labels of the laureate table and
 * drops incomplete and duplicate rows from the affiliation table. The laureate table's
 * labels are reassigned in place; the affiliation table is replaced by new tables.
 */
module Cleaning {
  import opened Results
  import opened Seqs
  import opened Labels
  import opened Tables

  /** No cell of `row` is missing. */
  predicate Complete(row: Row) {
    forall k :: 0 <= k < |row| ==> row[k].Some?
  }

  /** `DataFrame.dropna()`: the rows with no missing cell, in their original order. */
  function DropNa(t: AffiliationTable): (r: AffiliationTable)
    ensures r.columns == t.columns
    ensures forall row :: row in r.rows ==> Complete(row)
    ensures forall row :: row in t.rows && Complete(row) ==> row in r.rows
    ensures forall row :: multiset(r.rows)[row] == if Complete(row) then multiset(t.rows)[row] else 0
    ensures IsSubsequence(r.rows, t.rows)
    ensures |r.rows| <= |t.rows|
  {
    FilterFacts(t.rows, Complete);
    t.(rows := Filter(t.rows, Complete))
  }

  /** `DataFrame.drop_duplicates()` with `keep='first'`: the first occurrence of every
      distinct row, in the order of those occurrences. */
  function DropDuplicates(t: AffiliationTable): (r: AffiliationTable)
    ensures r.columns == t.columns
    ensures NoDuplicates(r.rows)
    ensures forall row :: row in t.rows ==> row in r.rows
    ensures forall row :: row in r.rows ==> row in t.rows
    ensures IsSubsequence(r.rows, t.rows)
    ensures forall i, j :: 0 <= i < j < |r.rows| ==> IndexOf(t.rows, r.rows[i]) < IndexOf(t.rows, r.rows[j])
    ensures |r.rows| <= |t.rows|
  {
    DedupKeepsFirst(t.rows);
    t.(rows := Dedup(t.rows))
  }

  /** Both cleaning steps of the affiliation table, in the order of lines 16-17. */
  function CleanAffiliations(t: AffiliationTable): (r: AffiliationTable)
    ensures r.columns == t.columns
    ensures forall row :: row in r.rows ==> Complete(row)
    ensures NoDuplicates(r.rows)
    ensures forall row :: row in r.rows <==> row in t.rows && Complete(row)
    ensures IsSubsequence(r.rows, t.rows)
  {
    var complete := DropNa(t);
    var r := DropDuplicates(complete);
    SubsequenceTransitive(r.rows, complete.rows, t.rows);
    r
  }

  /** The label rewrite of line 15 applied to the laureate table's category labels. */
  function CleanLaureates(t: LaureateTable): (r: LaureateTable)
    ensures r.rows == t.rows
    ensures |r.categories| == |t.categories|
    ensures forall i :: 0 <= i < |r.categories| ==> r.categories[i] == NormaliseLabel(t.categories[i])
    ensures WellFormed(t) ==> WellFormed(r)
  {
    t.(categories := NormaliseLabels(t.categories))
  }

  /** The state `clean_data` leaves behind. */
  ghost predicate IsClean(laureates: LaureateTable, affiliations: AffiliationTable) {
    && (forall i :: 0 <= i < |laureates.categories| ==> NormaliseLabel(laureates.categories[i]) == laureates.categories[i])
    && (forall row :: row in affiliations.rows ==> Complete(row))
    && NoDuplicates(affiliations.rows)
  }

  /** Cleaning produces a clean pair of tables. */
  lemma CleanIsClean(laureates: LaureateTable, affiliations: AffiliationTable)
    ensures IsClean(CleanLaureates(laureates), CleanAffiliations(affiliations))
  {
    forall i | 0 <= i < |laureates.categories| {
      NormaliseIdempotent(laureates.categories[i]);
    }
  }

  /** Cleaning a clean pair of tables changes nothing. */
  lemma CleanOnClean(laureates: LaureateTable, affiliations: AffiliationTable)
    requires IsClean(laureates, affiliations)
    ensures CleanLaureates(laureates) == laureates
    ensures CleanAffiliations(affiliations) == affiliations
  {
    FilterAll(affiliations.rows, Complete);
    DedupDistinct(affiliations.rows);
  }

  /** Cleaning is idempotent: cleaning twice gives the same tables as cleaning once. */
  lemma CleanIdempotent(laureates: LaureateTable, affiliations: AffiliationTable)
    ensures CleanLaureates(CleanLaureates(laureates)) == CleanLaureates(laureates)
    ensures CleanAffiliations(CleanAffiliations(affiliations)) == CleanAffiliations(affiliations)
  {
    CleanIsClean(laureates, affiliations);
    CleanOnClean(CleanLaureates(laureates), CleanAffiliations(affiliations));
  }

  /** The two module-level tables `data_wo_uni` and `data_w_uni`, as fetched. */
  class NobelData {
    var laureates: LaureateTable
    var affiliations: AffiliationTable

    /** The fetched tables; fetching itself is not part of the model. */
    constructor (laureates: LaureateTable, affiliations: AffiliationTable)
      ensures this.laureates == laureates && this.affiliations == affiliations
    {
      this.laureates := laureates;
      this.affiliations := affiliations;
    }

    /** The state the cleaner establishes. */
    ghost predicate Clean()
      reads this
    {
      IsClean(laureates, affiliations)
    }

    /** `clean_data`: relabels the laureate table in place, then rebinds the affiliation
        table to its complete rows and then to their first occurrences. Running it on
        already clean tables changes nothing. */
    method CleanData()
      modifies this
      ensures laureates == CleanLaureates(old(laureates))
      ensures affiliations == CleanAffiliations(old(affiliations))
      ensures Clean()
      ensures old(Clean()) ==> laureates == old(laureates) && affiliations == old(affiliations)
    {
      CleanIsClean(laureates, affiliations);
      if Clean() {
        CleanOnClean(laureates, affiliations);
      }
      laureates := laureates.(categories := NormaliseLabels(laureates.categories));
      affiliations := DropNa(affiliations);
      affiliations := DropDuplicates(affiliations);
    }
  }
}
