/**
 Lemmas over fixed inputs to the data layer, for conversions whose outcome JavaScript
 fixes: `+"2001"` is 2001, `+"abc"` is NaN, `+""` is 0, `+"Infinity"` is
 +Infinity. Only the values a scenario needs are required of `toNumber`.
 */
module Scenarios {

  import opened Optional
  import opened JsNumber
  import opened Subsequence
  import opened StringOrder
  import opened DataProcessing

  /** Three rows: one usable, one with an unparsable year, one with no deaths.
      Only the first survives, the selector offers "X", and selecting "Y"
      shows nothing. */
  lemma ThreeRowScenario(toNumber: string -> Num)
    requires toNumber("2001") == Finite(2001.0) && toNumber("5") == Finite(5.0)
    requires toNumber("abc") == NaN && toNumber("3") == Finite(3.0)
    requires toNumber("2002") == Finite(2002.0) && toNumber("0") == Finite(0.0)
    ensures var x1 := Record("X", "2001", "5", "Natural", "", "", "");
            var y := Record("Y", "abc", "3", "", "", "", "");
            var x2 := Record("X", "2002", "0", "", "", "", "");
            var out := ProcessData([x1, y, x2], toNumber);
            && out == [Row(x1, Finite(2001.0), Finite(5.0))]
            && GetUniqueCountries(out) == ["X"]
            && FilterByCountry(out, Some("Y")) == []
  {
    var x1 := Record("X", "2001", "5", "Natural", "", "", "");
    var y := Record("Y", "abc", "3", "", "", "", "");
    var x2 := Record("X", "2002", "0", "", "", "", "");
    ThreeRowProcessing(toNumber, x1, y, x2);
    OneRowSelector(Row(x1, Finite(2001.0), Finite(5.0)));
  }

  lemma ThreeRowProcessing(toNumber: string -> Num, x1: Record, y: Record, x2: Record)
    requires toNumber(x1.startYear) == Finite(2001.0) && toNumber(x1.totalDeaths) == Finite(5.0)
    requires toNumber(y.startYear) == NaN && toNumber(y.totalDeaths) == Finite(3.0)
    requires toNumber(x2.startYear) == Finite(2002.0) && toNumber(x2.totalDeaths) == Finite(0.0)
    ensures ProcessData([x1, y, x2], toNumber) == [Row(x1, Finite(2001.0), Finite(5.0))]
  {
    var all := AugmentAll([x1, y, x2], toNumber);
    assert all == [Row(x1, Finite(2001.0), Finite(5.0)), Row(y, NaN, Finite(3.0)), Row(x2, Finite(2002.0), Finite(0.0))];
    assert Filter(all[2..], Valid) == [];
    assert Filter(all[1..], Valid) == [];
    assert Filter(all, Valid) == [all[0]];
  }

  /** A single row offers its own country alone, and selecting another country
      shows nothing. */
  lemma OneRowSelector(row: Row)
    ensures GetUniqueCountries([row]) == [row.record.country]
    ensures forall c :: c != "" && c != row.record.country ==> FilterByCountry([row], Some(c)) == []
  {
    var u := GetUniqueCountries([row]);
    assert row in [row];
    StrictlySortedUnique(u, [row.record.country]);
  }

  /** An empty year converts to 0 and is kept; an empty or zero death count is
      dropped by `> 0` alone; an infinite death count is kept. */
  lemma EmptyAndInfiniteCells(toNumber: string -> Num)
    requires toNumber("") == Finite(0.0) && toNumber("7") == Finite(7.0)
    requires toNumber("1999") == Finite(1999.0) && toNumber("Infinity") == PosInfinity
    ensures var noYear := Record("Z", "", "7", "", "", "", "");
            ProcessData([noYear], toNumber) == [Row(noYear, Finite(0.0), Finite(7.0))]
    ensures var noDeaths := Record("Z", "1999", "", "", "", "", "");
            ProcessData([noDeaths], toNumber) == []
    ensures var endless := Record("Z", "1999", "Infinity", "", "", "", "");
            ProcessData([endless], toNumber) == [Row(endless, Finite(1999.0), PosInfinity)]
  {
  }
}
