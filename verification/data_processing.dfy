/**
 The data-shaping layer of the disaster scatterplot: numeric conversion and
 validity filtering of CSV rows, the sorted list of distinct countries for the
 selector, and the optional country filter.
 */
module DataProcessing {

  import opened Optional
  import opened JsNumber
  import opened Subsequence
  import opened StringOrder

  /** One CSV row as loaded: every column is a string (an empty cell is ""). */
  datatype Record = Record(
    country: string,
    startYear: string,      // column "Start.Year"
    totalDeaths: string,    // column "Total.Deaths"
    group: string,          // column "Disaster.Group"
    subgroup: string,       // column "Disaster.Subgroup"
    disasterType: string,   // column "Disaster.Type"
    subtype: string         // column "Disaster.Subtype"
  )

  /** A row after conversion: the original record plus the two derived numbers
      `Start_Year` and `Total_Deaths`. */
  datatype Row = Row(record: Record, startYear: Num, totalDeaths: Num)

  /** The two derived numbers a row is drawn with are usable. */
  predicate ValidNumbers(startYear: Num, totalDeaths: Num) {
    !IsNaN(totalDeaths) && !IsNaN(startYear) && IsPositive(totalDeaths)
  }

  predicate Valid(row: Row) {
    ValidNumbers(row.startYear, row.totalDeaths)
  }

  /** The conversion step for one record: unary `+` applied to both columns. */
  function Augment(rec: Record, toNumber: string -> Num): Row {
    Row(rec, toNumber(rec.startYear), toNumber(rec.totalDeaths))
  }

  /** The `forEach` conversion: every record, kept later or not, gets its two
      numbers, and its own fields stay as they were. */
  function AugmentAll(data: seq<Record>, toNumber: string -> Num): (r: seq<Row>)
    ensures |r| == |data|
    ensures forall i :: 0 <= i < |data| ==>
              && r[i].record == data[i]
              && r[i].startYear == toNumber(data[i].startYear)
              && r[i].totalDeaths == toNumber(data[i].totalDeaths)
  {
    seq(|data|, i requires 0 <= i < |data| => Augment(data[i], toNumber))
  }

  /** Converts every record, then keeps the rows whose numbers are usable. */
  function ProcessData(data: seq<Record>, toNumber: string -> Num): (r: seq<Row>)
    ensures |r| <= |data|
    ensures forall row :: row in r ==>
              !IsNaN(row.totalDeaths) && !IsNaN(row.startYear) && IsPositive(row.totalDeaths)
    ensures forall row :: row in r ==>
              row.startYear == toNumber(row.record.startYear) &&
              row.totalDeaths == toNumber(row.record.totalDeaths) &&
              row.record in data
  {
    var all := AugmentAll(data, toNumber);
    assert forall row :: row in all ==>
             row.startYear == toNumber(row.record.startYear) &&
             row.totalDeaths == toNumber(row.record.totalDeaths) &&
             row.record in data;
    Filter(all, Valid)
  }

  /** The positions of `data` whose records `ProcessData` keeps. */
  function ProcessedPositions(data: seq<Record>, toNumber: string -> Num): seq<nat> {
    KeptPositions(AugmentAll(data, toNumber), Valid)
  }

  /** `ProcessData` keeps, in input order and without repetition, exactly the
      records whose converted numbers are usable, each with its fields
      unchanged and the two numbers attached. */
  lemma ProcessDataKeepsExactlyValidRecords(data: seq<Record>, toNumber: string -> Num)
    ensures var r := ProcessData(data, toNumber);
            var pos := ProcessedPositions(data, toNumber);
            && |pos| == |r|
            && StrictlyIncreasing(pos)
            && (forall k :: 0 <= k < |pos| ==>
                  && pos[k] < |data|
                  && r[k].record == data[pos[k]]
                  && r[k].startYear == toNumber(data[pos[k]].startYear)
                  && r[k].totalDeaths == toNumber(data[pos[k]].totalDeaths))
            && (forall i :: 0 <= i < |data| ==>
                  (i in pos <==> ValidNumbers(toNumber(data[i].startYear), toNumber(data[i].totalDeaths))))
  {
    var all := AugmentAll(data, toNumber);
    FilterSelectsExactly(all, Valid);
    var pos := ProcessedPositions(data, toNumber);
    forall i | 0 <= i < |data|
      ensures i in pos <==> ValidNumbers(toNumber(data[i].startYear), toNumber(data[i].totalDeaths))
    {
      assert all[i] == Augment(data[i], toNumber);
    }
  }

  /** The `Country` column of every row, in row order (`data.map(d => d.Country)`). */
  function Countries(rows: seq<Row>): seq<string> {
    seq(|rows|, i requires 0 <= i < |rows| => rows[i].record.country)
  }

  lemma CountriesOccur(rows: seq<Row>)
    ensures forall c :: c in Countries(rows) <==> exists row :: row in rows && row.record.country == c
  {
    var names := Countries(rows);
    forall c | c in names
      ensures exists row :: row in rows && row.record.country == c
    {
      var i :| 0 <= i < |names| && names[i] == c;
      assert rows[i] in rows;
    }
    forall c | exists row :: row in rows && row.record.country == c
      ensures c in names
    {
      var row :| row in rows && row.record.country == c;
      var i :| 0 <= i < |rows| && rows[i] == row;
      assert names[i] == c;
    }
  }

  /** The distinct countries of `rows` in ascending order, for the selector. */
  function GetUniqueCountries(rows: seq<Row>): (r: seq<string>)
    ensures StrictlySorted(r)
    ensures forall c :: c in r <==> exists row :: row in rows && row.record.country == c
    ensures |rows| == 0 ==> r == []
  {
    var names := Countries(rows);
    CountriesOccur(rows);
    var r := Sort(Distinct(names));
    SameElements(r, Distinct(names));
    SortedDistinctIsStrict(r);
    r
  }

  /** The selector's list depends only on which countries occur, not on how
      often or in what order. */
  lemma UniqueCountriesIgnoresOrder(rows1: seq<Row>, rows2: seq<Row>)
    requires forall c :: c in Countries(rows1) <==> c in Countries(rows2)
    ensures GetUniqueCountries(rows1) == GetUniqueCountries(rows2)
  {
    var a, b := GetUniqueCountries(rows1), GetUniqueCountries(rows2);
    CountriesOccur(rows1);
    CountriesOccur(rows2);
    forall x
      ensures x in a <==> x in b
    {
      assert x in a <==> x in Countries(rows1);
      assert x in b <==> x in Countries(rows2);
    }
    StrictlySortedUnique(a, b);
  }

  /** The row predicate of a country selection. */
  function CountryIs(c: string): Row -> bool {
    (row: Row) => row.record.country == c
  }

  /** No selection (`null`) or the empty "All countries" option shows every row;
      any other selection keeps the rows of exactly that country. */
  function FilterByCountry(rows: seq<Row>, selection: Option<string>): (r: seq<Row>)
    ensures selection == None || selection == Some("") ==> r == rows
    ensures selection.Some? && selection.value != "" ==>
              && (forall row :: row in r ==> row in rows && row.record.country == selection.value)
              && (forall row :: row in rows && row.record.country == selection.value ==> row in r)
  {
    if selection.None? || selection.value == "" then rows
    else Filter(rows, CountryIs(selection.value))
  }

  /** With a country selected, the result is the subsequence of the rows at the
      positions whose country equals the selection; every row left out has a
      different country. */
  lemma FilterByCountrySelectsExactly(rows: seq<Row>, c: string)
    requires c != ""
    ensures var r := FilterByCountry(rows, Some(c));
            var pos := KeptPositions(rows, CountryIs(c));
            && SubsequenceAt(r, rows, pos)
            && (forall i :: 0 <= i < |rows| ==> (i in pos <==> rows[i].record.country == c))
  {
    FilterSelectsExactly(rows, CountryIs(c));
  }

  /** Applying the same selection twice shows the same rows as applying it once. */
  lemma FilterByCountryIdempotent(rows: seq<Row>, selection: Option<string>)
    ensures FilterByCountry(FilterByCountry(rows, selection), selection) == FilterByCountry(rows, selection)
  {
    if selection.Some? && selection.value != "" {
      FilterIdempotent(rows, CountryIs(selection.value));
    }
  }

  /** Every country the selector offers shows at least one row, and the
      selector built from that view offers that country alone. */
  lemma OfferedCountryShowsItsRows(rows: seq<Row>, c: string)
    requires c in GetUniqueCountries(rows) && c != ""
    ensures |FilterByCountry(rows, Some(c))| > 0
    ensures GetUniqueCountries(FilterByCountry(rows, Some(c))) == [c]
  {
    var view := FilterByCountry(rows, Some(c));
    var row :| row in rows && row.record.country == c;
    assert row in view;
    var u := GetUniqueCountries(view);
    forall d
      ensures d in u <==> d in [c]
    {
      if d in u {
        var other :| other in view && other.record.country == d;
      }
    }
    StrictlySortedUnique(u, [c]);
  }

  /** A selection only narrows the processed rows, so every row it shows is
      still usable for drawing. */
  lemma FilterByCountryKeepsValidity(rows: seq<Row>, selection: Option<string>)
    requires forall row :: row in rows ==> Valid(row)
    ensures forall row :: row in FilterByCountry(rows, selection) ==>
              !IsNaN(row.totalDeaths) && !IsNaN(row.startYear) && IsPositive(row.totalDeaths)
  {
  }
}
