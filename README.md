# bandwidth-explorer data processor, in Dafny

This project models `src/utils/dataProcessor.ts` of bandwidth-explorer. That
file turns a CSV export of internet bandwidth per capita into records, then
answers the queries the dashboard runs over them. It has these parts:

- `parseCSVData` keeps the valid rows as `BandwidthData` records, in line
  order. It also builds the `ProcessedData` facets: the distinct years in
  ascending order, the country names (one per country code, sorted), and the
  year range.
- `filterData` selects by country list and year.
- `getTopCountries` ranks a year's records by value and keeps the first `limit`.
- `getTrendData` maps each requested country to its records in year order.
- `calculateGlobalAverage` is the mean value of a year's records.
- `calculateYoYGrowth` is the percentage change of that mean from the year before.
- `getFastestGrowing` ranks countries by growth from one year to the next.

Files:

- `wrappers.dfy` (`Wrappers`): the `Option` type.
- `jstext.dfy` (`JsText`): the JavaScript string built-ins the processor
  relies on:
  - `split` with a one-character separator;
  - `trim`, with the ECMAScript white-space set;
  - the default string order of `Array.prototype.sort`.
- `jscollections.dfy` (`JsCollections`): the JavaScript collection built-ins:
  - `filter`;
  - `slice(0, end)`, including a negative `end`;
  - the stable `Array.prototype.sort`, as an insertion sort by a strict order
    `lt`, where `lt(a, b)` means the comparator is negative;
  - `Map` and `Set` with their insertion order, as sequences of entries.
- `bandwidth.dfy` (`Bandwidth`): the two record types. It also defines the
  validity every parsed record has.
- `csvparser.dfy` (`CsvParser`): `parseCSVData`. The row loop is a `while`
  loop in a method, proved against the `Records` function.
- `queries.dfy` (`Queries`): the six query functions of the processor.
  - `filterData`, `getTopCountries` and the two averages are pure functions.
  - `getTrendData` and `getFastestGrowing` update a `Map` in a loop, so they
    are methods with `while` loops.

Some details follow the code rather than a plain reading of its intent:

- A row with exactly 24 fields passes the length check `values.length < 24`,
  but it has no field 24. `parseFloat(undefined)` is NaN, so the row is still
  dropped. `ParseRowKeeps` shows that rows are kept exactly when they have at
  least 25 fields and the other conditions hold.
- `years[0] || 2000` falls back to the default not only for an empty dataset,
  but also when the first (or last) year is 0, because 0 is falsy.
- `getFastestGrowing` compares each country's FIRST previous-year record
  (`find`) with its LAST current-year record (`Map.set` overwrites). It skips
  a country whose previous value is not positive, even though parsed records
  always have positive values.
- `countriesMap.set(code, name)` keeps the LAST name seen for each code.
  Names are sorted after that, so two codes that share a name list it twice.

## Model

| member | source | states |
|---|---|---|
| CsvParser.ParseCsvData | src/utils/dataProcessor.ts:16-59 | `allData` is the records of the data lines in line order, all valid, at most one per line; `years` is strictly ascending and holds exactly the years of the records; `minYear`/`maxYear` (through `OrDefault`, the logical-or fallback) are the first/last year unless it is absent or 0, then 2000/2023; `countries` is sorted and is a permutation of the code-to-name map's values |
| CsvParser.ReadRows | src/utils/dataProcessor.ts:20-47 | the `forEach` loop leaves `allData`, `yearsSet` and `countriesMap` equal to the records of the lines and the year set and code map built from them |
| CsvParser.DataLines | src/utils/dataProcessor.ts:17 | skipping the header leaves one data line per newline of the text |
| CsvParser.HeaderIgnored | src/utils/dataProcessor.ts:17 | whatever the header line holds, the data lines are the split of the rest of the text |
| CsvParser.ParseRow | src/utils/dataProcessor.ts:25-46 | a row that yields a record yields a valid one: non-empty trimmed code and name, value > 0 |
| CsvParser.ParseRowKeeps | src/utils/dataProcessor.ts:25-35 | a row is kept if and only if it is not blank, has at least 25 fields, a non-blank code and name, a parsable year and a positive parsable value; the record holds the trimmed fields 5 and 6 and the parsed fields 23 and 24 |
| CsvParser.Records | src/utils/dataProcessor.ts:24-47 | the kept records are all valid and no more than the lines |
| CsvParser.RecordsFollowLines | src/utils/dataProcessor.ts:24-47 | the k-th record is the parse of the k-th kept line; lines that yield nothing contribute nothing |
| CsvParser.RecordsStep | src/utils/dataProcessor.ts:43 | one more line appends its record, if any, at the end |
| CsvParser.RecordsAtMostNonBlank | src/utils/dataProcessor.ts:25 | there are no more records than non-blank data lines |
| CsvParser.KeptLines | src/utils/dataProcessor.ts:24-35 | the kept line indices are increasing and are exactly the lines that yield a record |
| CsvParser.CollectAtMost | src/utils/dataProcessor.ts:25 | when only lines passing a test yield results, there are at most as many results as such lines |
| CsvParser.YearsSeen | src/utils/dataProcessor.ts:44 | `yearsSet` has no repeats and holds exactly the years that occur in the records |
| CsvParser.CodeNames | src/utils/dataProcessor.ts:45 | `countriesMap` has one entry per country code |
| CsvParser.LastWithCode | src/utils/dataProcessor.ts:45 | gives the position of the last record with a code, and no later record has it |
| CsvParser.CodeNamesLastWins | src/utils/dataProcessor.ts:45 | a code is in `countriesMap` exactly when some record has it, and maps to the name of the LAST such record |
| CsvParser.SortedDistinctAscending | src/utils/dataProcessor.ts:49 | sorting the distinct years with `(a, b) => a - b` gives a strictly ascending sequence |
| CsvParser.IntLtIsStrictWeakOrder | src/utils/dataProcessor.ts:49 | the numeric comparator is a strict weak order |
| CsvParser.StrLtIsStrictWeakOrder | src/utils/dataProcessor.ts:50 | the default string order is a strict weak order |
| Queries.YearData | src/utils/dataProcessor.ts:97 | `data.filter(d => d.year === year)` holds exactly the records of that year |
| Queries.FilterData | src/utils/dataProcessor.ts:61-71 | a record is in the result if and only if it is in the data, its year is the selected year, and the country list is empty or names it |
| Queries.FilterDataSpec | src/utils/dataProcessor.ts:66-70 | the result is an order-preserving subsequence of the data and keeps each selected record exactly as often as the data holds it, and no other |
| Queries.TopCountries | src/utils/dataProcessor.ts:73-78 | with `limit` 10 by default, the result has `slice(0, limit)`'s length of the year's records and holds only records of that year |
| Queries.TopCountriesOrdered | src/utils/dataProcessor.ts:76 | the result is in non-increasing order of value |
| Queries.TopCountriesFromYear | src/utils/dataProcessor.ts:75-77 | the result is a sub-multiset of the year's records |
| Queries.TopCountriesAreTop | src/utils/dataProcessor.ts:76-77 | every record of the year left out has a value no greater than any record kept |
| Queries.TopCountriesStable | src/utils/dataProcessor.ts:76 | among records with equal value, those kept are the first ones in data order (a stable sort) |
| Queries.Series | src/utils/dataProcessor.ts:84-86 | a country's series is a permutation of that country's records |
| Queries.SeriesNonEmptyIff | src/utils/dataProcessor.ts:88 | the series is non-empty if and only if the data holds a record of the country |
| Queries.SeriesOrdered | src/utils/dataProcessor.ts:84-86 | the series holds only that country's records, in non-decreasing year order |
| Queries.SeriesStable | src/utils/dataProcessor.ts:86 | records of the same year keep their data order in the series |
| Queries.TrendKeys | src/utils/dataProcessor.ts:83-91 | the trend map's keys have no repeats and are exactly the requested countries that have records |
| Queries.TrendKeysOrder | src/utils/dataProcessor.ts:83-91 | the keys come in the order of each country's first request |
| Queries.GetTrendData | src/utils/dataProcessor.ts:80-94 | the loop yields a map whose keys are `TrendKeys` and whose value for each key is that country's year-ordered series |
| Queries.GlobalAverage | src/utils/dataProcessor.ts:96-102 | the average is 0 when the year has no records |
| Queries.GlobalAverageBounds | src/utils/dataProcessor.ts:96-102 | when the year has records, the average lies between their smallest and largest value |
| Queries.YearDataNonEmptyIff | src/utils/dataProcessor.ts:97-98 | the year's records are non-empty if and only if some record has that year |
| Queries.GlobalAverageZeroIffNoData | src/utils/dataProcessor.ts:96-102 | for parsed records the average is 0 if and only if the year has no records, and positive otherwise |
| Queries.MinValue | src/utils/dataProcessor.ts:100-101 | the smallest value of a non-empty list of records is one of its values |
| Queries.MaxValue | src/utils/dataProcessor.ts:100-101 | the largest value of a non-empty list of records is one of its values |
| Queries.SumBounds | src/utils/dataProcessor.ts:100 | `Sum`, the `reduce` over the year's values: the sum of n values between lo and hi lies between n·lo and n·hi |
| Queries.GrowthPercentSign | src/utils/dataProcessor.ts:109 | `GrowthPercent`, the percentage formula of lines 109 and 121: from a positive base the change is positive if and only if the value rose, 0 if and only if it stayed, and at least -100%, reached if and only if the new value is 0 |
| Queries.YoYGrowthSpec | src/utils/dataProcessor.ts:104-110 | `YoYGrowth` (`calculateYoYGrowth`): for parsed records, the growth is 0 when the year before has no records; otherwise it is positive if and only if the average rose, 0 if and only if it stayed, never below -100%, and exactly -100% if and only if the year has no records |
| Queries.FindCountry | src/utils/dataProcessor.ts:119 | `find` gives the first record of the country, and none if and only if there is none |
| Queries.LastOfCountry | src/utils/dataProcessor.ts:118-123 | the record whose growth survives in the map is the last current-year record of the country |
| Queries.CountryGrowthInBothYears | src/utils/dataProcessor.ts:113-123 | `CountryGrowthIn` (through `GrowthFrom`, the growth a country keeps in `growthMap`): for parsed records a country has a growth if and only if it has records in both the year and the year before |
| Queries.GetFastestGrowing | src/utils/dataProcessor.ts:112-130 | with `limit` 5 by default: each entry holds a country's growth between its first prior-year and last current-year record; no country twice; growth non-increasing; at most `limit` entries; a country left out grows no faster than any kept; when fewer than `limit` are returned, every country with a growth is included; the length is that of `slice(0, limit)` on the list of all countries with a growth, for any integer `limit`, negative included |
| Queries.GrowthCountries | src/utils/dataProcessor.ts:113-123 | a country is in the set if and only if it has a growth between the year before and the year |
| Queries.RankingLength | src/utils/dataProcessor.ts:126-129 | the cut list has `slice(0, limit)`'s length of the number of countries with a growth |
| Queries.CollectGrowth | src/utils/dataProcessor.ts:116-124 | the loop yields a map with one entry per country that has a growth, holding that growth |
| Queries.GrowthFromStep | src/utils/dataProcessor.ts:118-123 | one more current-year record changes only its own country's growth, as `Map.set` does |
| Queries.GrowthListFacts | src/utils/dataProcessor.ts:126-127 | the `{country, growth}` list made from the growth map has no repeated entry and no country twice; each entry holds its country's growth; every country with a growth is listed |
| Queries.RankingFacts | src/utils/dataProcessor.ts:126-129 | sorting the growth list by growth and cutting it at `limit` gives the properties stated for `GetFastestGrowing` |
| Queries.CutTop | src/utils/dataProcessor.ts:128-129 | an entry cut off grows no faster than any entry kept |
| Queries.CutComplete | src/utils/dataProcessor.ts:129 | when the cut keeps fewer than `limit` entries it keeps all of them |
| Queries.CutOrdered | src/utils/dataProcessor.ts:128 | the kept entries are in non-increasing order of growth |
| Queries.CutMembers | src/utils/dataProcessor.ts:126-129 | the kept entries are distinct entries of the growth list, at most `limit` of them |
| JsText.Split | src/utils/dataProcessor.ts:17 | `split` gives at least one piece, and no piece holds the separator |
| JsText.JoinSplit | src/utils/dataProcessor.ts:27 | joining the fields of a split gives the line back |
| JsText.SplitJoin | src/utils/dataProcessor.ts:27 | splitting a join of separator-free pieces gives the pieces back |
| JsText.SplitCount | src/utils/dataProcessor.ts:27-28 | a split gives one piece more than there are separators |
| JsText.TrimEmptyIffBlank | src/utils/dataProcessor.ts:25 | `Trim` (`trim`): `!line.trim()` holds if and only if the line is all white space |
| JsText.TrimEnds | src/utils/dataProcessor.ts:30-31 | a trimmed field neither starts nor ends with white space |
| JsText.TrimIdempotent | src/utils/dataProcessor.ts:30-31 | trimming a trimmed field changes nothing |
| JsText.StrLtTransitive | src/utils/dataProcessor.ts:50 | the default string order is transitive |
| JsText.StrLtTotal | src/utils/dataProcessor.ts:50 | of two different strings one sorts before the other |
| JsText.StrLtIrreflexive | src/utils/dataProcessor.ts:50 | `StrLt`, the default string order: no string sorts before itself |
| JsCollections.Filter | src/utils/dataProcessor.ts:66 | `filter` returns no more elements than its input |
| JsCollections.FilterMembers | src/utils/dataProcessor.ts:66 | `filter` keeps exactly the elements that pass |
| JsCollections.FilterCounts | src/utils/dataProcessor.ts:66 | `filter` keeps each passing element as often as the input holds it |
| JsCollections.FilterIsSubsequence | src/utils/dataProcessor.ts:66 | `filter` keeps the input order |
| JsCollections.SliceToFacts | src/utils/dataProcessor.ts:77 | `slice(0, end)` keeps a prefix of its input (a sub-multiset): exactly `end` elements for `0 <= end <= length`, everything once `end` reaches the length, for a negative `end` all but the last `-end` elements, and nothing when `-end` exceeds the length |
| JsCollections.CutFilterIsPrefix | src/utils/dataProcessor.ts:76-77 | filtering the first `k` elements gives a prefix of filtering them all |
| JsCollections.Sort | src/utils/dataProcessor.ts:76 | the sort is a permutation of its input |
| JsCollections.SortIsSorted | src/utils/dataProcessor.ts:76 | for a strict weak order, no element of the sorted output comes strictly before an earlier one |
| JsCollections.SortIsStable | src/utils/dataProcessor.ts:76 | elements the order treats as equal keep their input order |
| JsCollections.SortPrefixIsTop | src/utils/dataProcessor.ts:76-77 | no element cut off by `slice` sorts strictly before one kept |
| JsCollections.MapSet | src/utils/dataProcessor.ts:45 | `Map.set` adds a new key last, leaves an existing key in place with the new value, and changes no other key |
| JsCollections.Get | src/utils/dataProcessor.ts:122 | the lookup the contracts use to say what a `Map` built by `set` (lines 45, 89, 122) holds: it finds nothing exactly for a key not in the map |
| JsCollections.SetAdd | src/utils/dataProcessor.ts:44 | `Set.add` keeps the set free of repeats, adds exactly that element, and keeps the existing order |
| JsCollections.DistinctCard | src/utils/dataProcessor.ts:126 | a list without repeats (the keys of a `Map`) has as many elements as the set of them |
| JsCollections.DistinctPermutation | src/utils/dataProcessor.ts:49 | a permutation of a list without repeats has no repeats |

## Left out

- Fetching the CSV file and the React components that show the results are not part of this model.
- Numbers are exact reals. The model does not capture IEEE-754 rounding, infinities, or NaN arising from arithmetic. NaN from `parseInt`/`parseFloat` is modelled as `None`.
- `parseInt` and `parseFloat` are parameters of `ParseCsvData`, not definitions. Their text grammar is not modelled.
- JsText.StrLt: compares characters (code points), while JavaScript compares UTF-16 code units. The two orders differ only for characters outside the Basic Multilingual Plane.
- The `dataMap` in `parseCSVData` is created and never used, so it is not modelled.
- Quoted CSV fields with embedded commas are not handled, as in the source: a line is split on every comma.
- `limit` is an integer. A fractional or non-numeric `limit` passed to `slice` is not modelled.
- `filterData`'s `includes` and the `===` comparisons are exact equality on strings and numbers. The NaN rules of `===` do not arise, because values are reals.
- Queries.GetTrendData: its result is stated through the spec function `TrendKeys` and the series of each key. The map is a sequence of entries that the method reassigns, so it is a value, not a shared object.
- Queries.GetFastestGrowing: states the ranking through `CountryGrowthIn`. Among countries with equal growth, the order (map insertion order, kept by the stable sort) is not stated.
