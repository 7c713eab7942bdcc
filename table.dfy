/** The table reader of scraper_test.py scrape_from_full_address: every
    table row with exactly two cells is a (label, value) pair, and the label
    decides which field the value fills. Fetching and parsing the page is
    left out: the loop starts from the cell texts of each row. */
module TableScrape {
  import opened Wrappers
  import opened Text
  import opened Search
  import opened Scan

  /** The result dict; every field starts as "". */
  datatype TableData = TableData(county: string, township: string, schoolDistrict: string)

  /** The lower-cased, trimmed first cell of a two-cell row. */
  function Key(cells: seq<string>): string
    requires |cells| == 2
  {
    Lower(Strip(cells[0]))
  }

  /** The if/elif chain, in its order: "county" first, then "township",
      then "school district". */
  predicate IsCountyRow(cells: seq<string>) {
    |cells| == 2 && Contains(Key(cells), "county")
  }

  predicate IsTownshipRow(cells: seq<string>) {
    |cells| == 2 && !Contains(Key(cells), "county") && Contains(Key(cells), "township")
  }

  predicate IsSchoolRow(cells: seq<string>) {
    |cells| == 2 && !Contains(Key(cells), "county") && !Contains(Key(cells), "township")
      && Contains(Key(cells), "school district")
  }

  /** The trimmed second cell of the row a field comes from, or "". */
  function ValueOf(row: Option<seq<string>>): string {
    if row.Some? && |row.value| == 2 then Strip(row.value[1]) else ""
  }

  /** What the loop leaves in the dict: for each field, the value of the
      last row of its kind. */
  function Scrape(rows: seq<seq<string>>): TableData {
    TableData(
      ValueOf(LastWith(rows, IsCountyRow)),
      ValueOf(LastWith(rows, IsTownshipRow)),
      ValueOf(LastWith(rows, IsSchoolRow)))
  }

  method ScrapeRows(rows: seq<seq<string>>) returns (data: TableData)
    ensures data == Scrape(rows)
  {
    var county, township, school := "", "", "";
    var i := 0;
    while i < |rows|
      invariant i <= |rows|
      invariant county == ValueOf(LastWith(rows[..i], IsCountyRow))
      invariant township == ValueOf(LastWith(rows[..i], IsTownshipRow))
      invariant school == ValueOf(LastWith(rows[..i], IsSchoolRow))
    {
      county, township, school := ScanRow(rows, i, county, township, school);
      i := i + 1;
    }
    assert rows[..i] == rows;
    data := TableData(county, township, school);
  }

  /** The loop body for row i: the if/elif chain on its label. */
  method ScanRow(rows: seq<seq<string>>, i: nat,
                 county0: string, township0: string, school0: string)
    returns (county: string, township: string, school: string)
    requires i < |rows|
    requires county0 == ValueOf(LastWith(rows[..i], IsCountyRow))
    requires township0 == ValueOf(LastWith(rows[..i], IsTownshipRow))
    requires school0 == ValueOf(LastWith(rows[..i], IsSchoolRow))
    ensures county == ValueOf(LastWith(rows[..i + 1], IsCountyRow))
    ensures township == ValueOf(LastWith(rows[..i + 1], IsTownshipRow))
    ensures school == ValueOf(LastWith(rows[..i + 1], IsSchoolRow))
  {
    LastWithPrefix(rows, i, IsCountyRow);
    LastWithPrefix(rows, i, IsTownshipRow);
    LastWithPrefix(rows, i, IsSchoolRow);
    var cells := rows[i];
    county, township, school := county0, township0, school0;
    if |cells| == 2 {
      var key := Lower(Strip(cells[0]));
      var value := Strip(cells[1]);
      if Contains(key, "county") {
        county := value;
      } else if Contains(key, "township") {
        township := value;
      } else if Contains(key, "school district") {
        school := value;
      }
    }
  }

  // ---------------------------------------------------------------------
  // The rules

  /** A field with no row of its kind stays "". */
  lemma Defaults(rows: seq<seq<string>>)
    ensures (forall i :: 0 <= i < |rows| ==> !IsCountyRow(rows[i])) ==> Scrape(rows).county == ""
    ensures (forall i :: 0 <= i < |rows| ==> !IsTownshipRow(rows[i])) ==> Scrape(rows).township == ""
    ensures (forall i :: 0 <= i < |rows| ==> !IsSchoolRow(rows[i])) ==> Scrape(rows).schoolDistrict == ""
  {
    LastWithMeaning(rows, IsCountyRow);
    LastWithMeaning(rows, IsTownshipRow);
    LastWithMeaning(rows, IsSchoolRow);
  }

  /** A field is "" when no row is of its kind, and otherwise the trimmed
      second cell of the last row of its kind. */
  lemma ScrapeRule(rows: seq<seq<string>>)
    ensures RowRule(rows, IsCountyRow, Scrape(rows).county)
    ensures RowRule(rows, IsTownshipRow, Scrape(rows).township)
    ensures RowRule(rows, IsSchoolRow, Scrape(rows).schoolDistrict)
  {
    LastRowValue(rows, IsCountyRow);
    LastRowValue(rows, IsTownshipRow);
    LastRowValue(rows, IsSchoolRow);
  }

  /** v is "" when no row satisfies p, and otherwise the trimmed second cell
      of the last row that does. */
  predicate RowRule(rows: seq<seq<string>>, p: seq<string> -> bool, v: string) {
    && ((forall i :: 0 <= i < |rows| ==> !p(rows[i])) ==> v == "")
    && ((exists i :: 0 <= i < |rows| && p(rows[i])) ==>
          exists i :: 0 <= i < |rows| && p(rows[i]) && |rows[i]| == 2 && v == Strip(rows[i][1])
            && forall j :: i < j < |rows| ==> !p(rows[j]))
  }

  lemma LastRowValue(rows: seq<seq<string>>, p: seq<string> -> bool)
    requires p == IsCountyRow || p == IsTownshipRow || p == IsSchoolRow
    ensures RowRule(rows, p, ValueOf(LastWith(rows, p)))
  {
    LastWithMeaning(rows, p);
  }

  /** A later county row overwrites the county and nothing else, even when
      its label also says "township" or "school district". */
  lemma CountyRowWins(rows: seq<seq<string>>, r: seq<string>)
    requires |r| == 2 && Contains(Lower(Strip(r[0])), "county")
    ensures Scrape(rows + [r]) == Scrape(rows).(county := Strip(r[1]))
  {
    LastWithSnoc(rows, r, IsCountyRow);
    LastWithSnoc(rows, r, IsTownshipRow);
    LastWithSnoc(rows, r, IsSchoolRow);
  }

  /** A later township row (no "county" in its label) overwrites the
      township and nothing else. */
  lemma TownshipRowWins(rows: seq<seq<string>>, r: seq<string>)
    requires |r| == 2 && !Contains(Lower(Strip(r[0])), "county") && Contains(Lower(Strip(r[0])), "township")
    ensures Scrape(rows + [r]) == Scrape(rows).(township := Strip(r[1]))
  {
    LastWithSnoc(rows, r, IsCountyRow);
    LastWithSnoc(rows, r, IsTownshipRow);
    LastWithSnoc(rows, r, IsSchoolRow);
  }

  /** A later school-district row (neither "county" nor "township" in its
      label) overwrites the district and nothing else. */
  lemma SchoolRowWins(rows: seq<seq<string>>, r: seq<string>)
    requires |r| == 2 && !Contains(Lower(Strip(r[0])), "county") && !Contains(Lower(Strip(r[0])), "township")
    requires Contains(Lower(Strip(r[0])), "school district")
    ensures Scrape(rows + [r]) == Scrape(rows).(schoolDistrict := Strip(r[1]))
  {
    LastWithSnoc(rows, r, IsCountyRow);
    LastWithSnoc(rows, r, IsTownshipRow);
    LastWithSnoc(rows, r, IsSchoolRow);
  }

  /** A row without exactly two cells, or whose label names none of the
      three fields, changes nothing, wherever it stands. */
  lemma OtherRowIgnored(before: seq<seq<string>>, r: seq<string>, after: seq<seq<string>>)
    requires |r| != 2 || (!Contains(Lower(Strip(r[0])), "county") && !Contains(Lower(Strip(r[0])), "township")
                          && !Contains(Lower(Strip(r[0])), "school district"))
    ensures Scrape(before + [r] + after) == Scrape(before + after)
  {
    LastWithSkip(before, r, after, IsCountyRow);
    LastWithSkip(before, r, after, IsTownshipRow);
    LastWithSkip(before, r, after, IsSchoolRow);
  }
}
