# Disaster scatterplot data layer in Dafny

A model of the data-shaping layer of a small D3 scatterplot of disasters
(year of the event against its death toll). The layer takes the rows of the
loaded CSV file and

- converts the `Start.Year` and `Total.Deaths` columns with JavaScript's unary
  `+`, attaches the results as `Start_Year` and `Total_Deaths`, and keeps only
  rows whose two numbers are not NaN and whose death count is `> 0`
  (`processData`);
- lists the distinct `Country` values in ascending order for the country
  selector (`getUniqueCountries`);
- narrows the rows to one selected country, or shows them all when nothing
  (or the empty "All countries" option) is selected (`filterByCountry`);
- picks the fill colour of a point from its `Disaster.Group`
  (`getDisasterColor`).

Modules:

- `Optional` (optional.dfy): a value that may be absent. It stands for `null`
  and `undefined`.
- `JsNumber` (js_number.dfy): the number values a conversion can produce.
  These are NaN, finite reals and the two infinities. The module also gives
  `isNaN` and `> 0` on them. The string-to-number conversion is not defined
  here. Every operation that converts takes it as a parameter
  `toNumber: string -> Num`, so every property holds whatever the conversion
  does.
- `Subsequence` (subsequence.dfy): `Array.prototype.filter` with a pure
  callback. It also computes the positions the filter keeps, which witness that
  the result is an order-preserving subsequence.
- `StringOrder` (string_order.dfy): the default `sort()` order on strings,
  the first-occurrence de-duplication of a `Set`, and an insertion sort.
- `DataProcessing` (data_processing.dfy): records, rows and the three
  operations of `js/data_processing.js`.
- `UiHelper` (ui_helper.dfy): the colour lookup of `js/ui_and_helper.js`.
- `Scenarios` (scenarios.dfy): lemmas over fixed inputs, for conversions whose JavaScript
  results are fixed (`+"abc"` is NaN, `+""` is 0, `+"Infinity"` is +Infinity).

Behaviours of the code a reader might not expect:

- The code checks only `isNaN`, not finiteness. A death count of `"Infinity"`
  therefore survives. `Scenarios.EmptyAndInfiniteCells` shows such a row being
  kept.
- In JavaScript, `+""` is 0, not NaN. A row with an empty `Start.Year`
  survives with year 0. A row with an empty `Total.Deaths` is dropped, but only
  by the `> 0` test.
- The selection is falsy both for the initial `null` and for `""`. Both show
  every row.
- The default sort compares strings character by character. The model does
  the same with Dafny's `char` order.

An empty `Country` cell is listed by the selector as `""`. That is the same
value as the "All countries" option, so choosing it shows every row.
`DataProcessing.OfferedCountryShowsItsRows` therefore requires a non-empty
country.

## Model

| member | source | states |
|---|---|---|
| `Subsequence.Filter` | js/data_processing.js:17-21 | The result is no longer than the input. It holds only input elements the callback accepts. Every accepted input element is in it. |
| `Subsequence.FilterSelectsExactly` | js/data_processing.js:17-21 | The filter result is the input read at strictly increasing positions: nothing is reordered, duplicated or invented. A position is among them exactly when the callback accepts its element. |
| `Subsequence.FilterIdempotent` | js/data_processing.js:38 | Filtering an already filtered sequence with the same callback returns it unchanged. |
| `DataProcessing.ProcessData` | js/data_processing.js:9-22 | Every returned row has a non-NaN `Total_Deaths`, a non-NaN `Start_Year` and `Total_Deaths > 0`. Its two numbers are the conversions of its own `Start.Year` and `Total.Deaths` columns. Its record is one of the input records. There are never more rows out than in. |
| `DataProcessing.AugmentAll` | js/data_processing.js:11-14 | Every input row, kept or dropped, gets a converted row at the same position. The converted row keeps the record's fields unchanged and attaches `Start_Year = toNumber(Start.Year)` and `Total_Deaths = toNumber(Total.Deaths)`. |
| `DataProcessing.ProcessDataKeepsExactlyValidRecords` | js/data_processing.js:11-21 | The output is the input read at strictly increasing positions. Each output row carries its input record unchanged, with `Start_Year = toNumber(Start.Year)` and `Total_Deaths = toNumber(Total.Deaths)` attached. An input position is kept if and only if its converted numbers pass the validity test, so no usable row is lost. |
| `DataProcessing.CountriesOccur` | js/data_processing.js:28 | A string is among the mapped `Country` values exactly when some row has that country. |
| `StringOrder.Distinct` | js/data_processing.js:28 | Building a `Set` gives a sequence without duplicates. It has exactly the elements of the input and is no longer than it. |
| `StringOrder.InsertSorted` | js/data_processing.js:28 | Inserting into a sorted sequence keeps it sorted and adds exactly the one element, as multisets. Inserting a new element into a duplicate-free sequence keeps it duplicate-free. |
| `StringOrder.Sort` | js/data_processing.js:28 | The result is sorted and is a permutation of the input, as multisets. A duplicate-free input gives a duplicate-free result. |
| `StringOrder.LessIrreflexive` | js/data_processing.js:28 | No string sorts before itself. |
| `StringOrder.LessTransitive` | js/data_processing.js:28 | The sort order is transitive. |
| `StringOrder.LessTrichotomy` | js/data_processing.js:28 | Two different strings are ordered one way and never both ways, so `sort()` has one answer. |
| `StringOrder.StrictlySortedUnique` | js/data_processing.js:28 | Two strictly ascending sequences with the same elements are equal. |
| `DataProcessing.GetUniqueCountries` | js/data_processing.js:27-29 | The result is strictly ascending, so it is sorted and has no duplicates. A string is in it if and only if some row has that `Country`. Empty input gives empty output. |
| `DataProcessing.UniqueCountriesIgnoresOrder` | js/data_processing.js:28 | Two row sequences with the same countries get the same selector list, however the rows are ordered or repeated. |
| `DataProcessing.FilterByCountry` | js/data_processing.js:34-39 | No selection or the empty selection returns the input sequence itself. Any other selection returns only input rows of that exact country, and every input row of that country. |
| `DataProcessing.FilterByCountrySelectsExactly` | js/data_processing.js:38 | With a non-empty selection, the result is the rows read at strictly increasing positions. A position is among them if and only if its `Country` equals the selection, case-sensitively. Every excluded row has a different country. |
| `DataProcessing.FilterByCountryIdempotent` | js/data_processing.js:34-39 | Applying the same selection twice gives what applying it once gives. |
| `DataProcessing.OfferedCountryShowsItsRows` | js/data_processing.js:27-39 | Every non-empty country the selector offers shows at least one row. The selector built from that view offers that country alone. |
| `DataProcessing.FilterByCountryKeepsValidity` | js/data_processing.js:34-39 | Narrowing processed rows to a country keeps every shown row usable: non-NaN numbers and deaths `> 0`. |
| `UiHelper.GetDisasterColor` | js/ui_and_helper.js:11-15 | The colour is always green, red or gray. It is green exactly for "Natural" and red exactly for "Technological". It is gray exactly for any other group, including an absent one. |
| `UiHelper.SameColorIffSameClass` | js/ui_and_helper.js:11-15 | Two groups get the same colour if and only if they are the same known group or both are unknown. |
| `UiHelper.ColorMatchingIsExact` | js/ui_and_helper.js:12-14 | The match is exact and case-sensitive. "natural", "NATURAL", "technological", "Natural " (with a trailing space), "Earthquake", the empty string and an absent group all give gray. |
| `Scenarios.ThreeRowScenario` | js/data_processing.js:9-39 | From an X row for 2001 with 5 deaths, a Y row with year "abc", and an X row with 0 deaths, only the first survives, with numbers 2001 and 5. The selector then offers just "X", and selecting "Y" shows nothing. |
| `Scenarios.OneRowSelector` | js/data_processing.js:27-39 | A single row makes the selector offer its own country alone. Selecting any other non-empty country shows no rows. |
| `Scenarios.EmptyAndInfiniteCells` | js/data_processing.js:12-21 | An empty year converts to 0 and the row is kept. An empty death count converts to 0 and the row is dropped. A death count of "Infinity" is kept. |

## Left out

- Loading the CSV (`d3.csv` and its error handling) is I/O. The rows arrive as a parameter.
- Drawing is left out: the SVG, axes, scales, title, tooltip, transitions and `d3.min`/`d3.max` axis domains. It is DOM and floating-point charting work.
- `populateDropdown` is left out. It builds DOM `<option>` elements through d3.
- The module-level `currentCountry` cell and its change handler are left out. They are UI state; the selection is a parameter of `FilterByCountry` instead.
- The JavaScript string-to-number grammar is not modelled: whitespace, hex literals, exponents, `-0` and IEEE-754 rounding. The conversion is the `toNumber` parameter, and a finite result is an exact real.
- `processData` writes the two numbers onto the rows it drops as well, in place. The caller discards the input array, so only the returned rows are modelled. The records themselves are immutable values.
- `filterByCountry` returns the same array object when nothing is selected. This is modelled as sequence equality; object identity and aliasing are not modelled.
- Columns other than the seven the code reads are not modelled. A missing column is not modelled either, because d3 fills every header column of every row with a string.
- The default `sort()` compares UTF-16 code units; the model compares Dafny characters. The two orders differ only between characters above U+FFFF and characters in U+E000–U+FFFF.
