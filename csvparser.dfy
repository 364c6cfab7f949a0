/**
 * `parseCSVData`: turns the raw CSV text into the list of valid records and
 * the facets the dashboard filters on (distinct years, country names, the
 * year range).
 *
 * The number parsers `parseInt` and `parseFloat` are parameters: `None`
 * stands for the NaN they return on text that is not a number.
 */
module CsvParser {

  import opened Wrappers
  import opened JsText
  import opened JsCollections
  import opened Bandwidth

  /** Column positions of the fixed CSV layout (0-based). */
  const CodeColumn := 5
  const NameColumn := 6
  const YearColumn := 23
  const ValueColumn := 24
  /** The length check rejects rows with fewer fields than this. */
  const MinFields := 24
  /** Year range used when no (non-zero) year is known. */
  const DefaultMinYear := 2000
  const DefaultMaxYear := 2023

  type IntParser = string -> Option<int>
  type FloatParser = string -> Option<real>

  /** The data lines: everything after the first (header) line. */
  function DataLines(csvText: string): (lines: seq<string>)
    ensures |lines| == Occurrences(csvText, '\n')
  {
    SplitCount(csvText, '\n');
    Split(csvText, '\n')[1..]
  }

  /**
   * One row of the `forEach` body: the record it contributes, if any.
   * A row with exactly 24 fields passes the length check but has no
   * value field; `parseFloat(undefined)` is NaN, so the row is dropped.
   */
  function ParseRow(line: string, parseInt: IntParser, parseFloat: FloatParser): (r: Option<BandwidthData>)
    ensures r.Some? ==> ValidRecord(r.value)
  {
    if Trim(line) == [] then None
    else
      var values := Split(line, ',');
      if |values| < MinFields then None
      else
        var countryCode := Trim(values[CodeColumn]);
        var country := Trim(values[NameColumn]);
        var year := parseInt(Trim(values[YearColumn]));
        var value := if ValueColumn < |values| then parseFloat(Trim(values[ValueColumn])) else None;
        if countryCode != [] && country != [] && year.Some? && value.Some? && value.value > 0.0 then
          TrimIdempotent(values[CodeColumn]);
          TrimIdempotent(values[NameColumn]);
          Some(BandwidthData(country, countryCode, year.value, value.value))
        else None
  }

  /**
   * When a row is kept, stated in the terms of the file layout: the row is
   * not blank and has at least 25 fields, code and name are non-blank, the
   * year parses, and the value parses to a positive number.
   */
  predicate RowAcceptable(line: string, parseInt: IntParser, parseFloat: FloatParser)
  {
    var fields := Split(line, ',');
    && !AllWhiteSpace(line)
    && |fields| >= 25
    && !AllWhiteSpace(fields[5])
    && !AllWhiteSpace(fields[6])
    && parseInt(Trim(fields[23])).Some?
    && parseFloat(Trim(fields[24])).Some?
    && parseFloat(Trim(fields[24])).value > 0.0
  }

  /** A row is kept exactly when it is acceptable, and the record holds its trimmed fields. */
  lemma ParseRowKeeps(line: string, parseInt: IntParser, parseFloat: FloatParser)
    ensures ParseRow(line, parseInt, parseFloat).Some? <==> RowAcceptable(line, parseInt, parseFloat)
    ensures ParseRow(line, parseInt, parseFloat).Some? ==>
      var fields := Split(line, ',');
      var d := ParseRow(line, parseInt, parseFloat).value;
      && d.countryCode == Trim(fields[5])
      && d.country == Trim(fields[6])
      && Some(d.year) == parseInt(Trim(fields[23]))
      && Some(d.value) == parseFloat(Trim(fields[24]))
  {
    TrimEmptyIffBlank(line);
    var fields := Split(line, ',');
    if |fields| >= 25 {
      TrimEmptyIffBlank(fields[5]);
      TrimEmptyIffBlank(fields[6]);
    }
  }

  /** The row step of the `forEach` loop, as a function value. */
  function RowParser(parseInt: IntParser, parseFloat: FloatParser): string -> Option<BandwidthData>
  {
    (line: string) => ParseRow(line, parseInt, parseFloat)
  }

  /** What the `forEach` loop pushes: the result of `row` on each line that yields one, in line order. */
  function Collect<T>(lines: seq<string>, row: string -> Option<T>): (data: seq<T>)
    ensures |data| <= |lines|
  {
    if lines == [] then []
    else
      var prev := Collect(lines[..|lines| - 1], row);
      match row(lines[|lines| - 1])
      case Some(d) => prev + [d]
      case None => prev
  }

  /** The records kept from `lines`, in line order. */
  function Records(lines: seq<string>, parseInt: IntParser, parseFloat: FloatParser): (data: seq<BandwidthData>)
    ensures |data| <= |lines|
    ensures AllValid(data)
  {
    var data := Collect(lines, RowParser(parseInt, parseFloat));
    RecordsFollowLines(lines, RowParser(parseInt, parseFloat));
    data
  }

  /** Indices of the lines that yield a record, in increasing order. */
  function KeptLines<T>(lines: seq<string>, row: string -> Option<T>): (idx: seq<nat>)
    ensures forall k :: 0 <= k < |idx| ==> idx[k] < |lines| && row(lines[idx[k]]).Some?
    ensures forall k, l :: 0 <= k < l < |idx| ==> idx[k] < idx[l]
    ensures forall n :: 0 <= n < |lines| && row(lines[n]).Some? ==> n in idx
  {
    if lines == [] then []
    else
      var n := |lines| - 1;
      var prev := KeptLines(lines[..n], row);
      assert forall k :: 0 <= k < |prev| ==> lines[..n][prev[k]] == lines[prev[k]];
      if row(lines[n]).Some? then prev + [n] else prev
  }

  /**
   * The loop never reorders: the k-th record comes from the k-th kept line,
   * and every other line contributes nothing.
   */
  lemma {:induction false} RecordsFollowLines<T>(lines: seq<string>, row: string -> Option<T>)
    ensures var data := Collect(lines, row);
            var idx := KeptLines(lines, row);
            |data| == |idx| &&
            forall k :: 0 <= k < |data| ==> Some(data[k]) == row(lines[idx[k]])
  {
    if lines != [] {
      var n := |lines| - 1;
      RecordsFollowLines(lines[..n], row);
      var data := Collect(lines, row);
      var idx := KeptLines(lines, row);
      var prev := Collect(lines[..n], row);
      var pidx := KeptLines(lines[..n], row);
      assert forall k :: 0 <= k < |pidx| ==> lines[..n][pidx[k]] == lines[pidx[k]];
      if row(lines[n]).Some? {
        assert data == prev + [row(lines[n]).value] && idx == pidx + [n];
        forall k | 0 <= k < |data| ensures Some(data[k]) == row(lines[idx[k]]) {
          if k < |prev| {
            assert data[k] == prev[k] && idx[k] == pidx[k];
          }
        }
      } else {
        assert data == prev && idx == pidx;
      }
    }
  }

  /** No more records than non-blank data lines. */
  lemma RecordsAtMostNonBlank(lines: seq<string>, parseInt: IntParser, parseFloat: FloatParser)
    ensures |Records(lines, parseInt, parseFloat)| <= |Filter(lines, (l: string) => !AllWhiteSpace(l))|
  {
    var row := RowParser(parseInt, parseFloat);
    forall l | row(l).Some? ensures !AllWhiteSpace(l) {
      ParseRowKeeps(l, parseInt, parseFloat);
    }
    CollectAtMost(lines, row, (l: string) => !AllWhiteSpace(l));
  }

  /** One more line adds its record, if it yields one, at the end. */
  lemma RecordsStep(lines: seq<string>, i: nat, parseInt: IntParser, parseFloat: FloatParser)
    requires i < |lines|
    ensures var row := ParseRow(lines[i], parseInt, parseFloat);
            Records(lines[..i + 1], parseInt, parseFloat) ==
              Records(lines[..i], parseInt, parseFloat) + (if row.Some? then [row.value] else [])
  {
    assert lines[..i + 1][..i] == lines[..i];
    assert lines[..i + 1][i] == lines[i];
    assert RowParser(parseInt, parseFloat)(lines[i]) == ParseRow(lines[i], parseInt, parseFloat);
  }

  /** When only lines passing `keep` yield a result, there are no more results than such lines. */
  lemma {:induction false} CollectAtMost<T>(lines: seq<string>, row: string -> Option<T>, keep: string -> bool)
    requires forall l :: row(l).Some? ==> keep(l)
    ensures |Collect(lines, row)| <= |Filter(lines, keep)|
  {
    if lines != [] {
      var n := |lines| - 1;
      CollectAtMost(lines[..n], row, keep);
      assert lines == lines[..n] + [lines[n]];
      FilterDistributes(lines[..n], [lines[n]], keep);
      FilterSingle(lines[n], keep);
    }
  }

  /** The header line is never looked at: any header gives the same data lines. */
  lemma HeaderIgnored(header: string, body: string)
    requires '\n' !in header
    ensures DataLines(header + ['\n'] + body) == Split(body, '\n')
  {
    SplitPrefix(header, body, '\n');
    assert header + ['\n'] + body == header + (['\n'] + body);
  }

  // ---------------------------------------------------------------------------
  // The facets
  // ---------------------------------------------------------------------------

  /** `yearsSet` after adding the year of every record, in insertion order. */
  function YearsSeen(data: seq<BandwidthData>): (ys: seq<int>)
    ensures Distinct(ys)
    ensures forall y :: y in ys <==> HasYear(data, y)
  {
    if data == [] then []
    else
      var n := |data| - 1;
      var prev := YearsSeen(data[..n]);
      assert forall y :: HasYear(data, y) <==> HasYear(data[..n], y) || data[n].year == y by {
        forall y | HasYear(data, y) ensures HasYear(data[..n], y) || data[n].year == y {
          var i :| 0 <= i < |data| && data[i].year == y;
          if i < n { assert data[..n][i] == data[i]; }
        }
        forall y | HasYear(data[..n], y) ensures HasYear(data, y) {
          var i :| 0 <= i < n && data[..n][i].year == y;
          assert data[i].year == y;
        }
      }
      SetAdd(prev, data[n].year)
  }

  /** `countriesMap`: each country code mapped to a name, in first-seen order of the codes. */
  function CodeNames(data: seq<BandwidthData>): (m: Entries<string, string>)
    ensures Distinct(Keys(m))
  {
    if data == [] then []
    else
      var n := |data| - 1;
      MapSet(CodeNames(data[..n]), data[n].countryCode, data[n].country)
  }

  /** Position of the last record with country code `code`, or -1 when there is none. */
  function LastWithCode(data: seq<BandwidthData>, code: string): (i: int)
    ensures -1 <= i < |data|
    ensures 0 <= i ==> data[i].countryCode == code
    ensures forall j :: i < j < |data| ==> data[j].countryCode != code
  {
    if data == [] then -1
    else if data[|data| - 1].countryCode == code then |data| - 1
    else LastWithCode(data[..|data| - 1], code)
  }

  /**
   * A code is in `countriesMap` exactly when some record has it, and it holds
   * the name of the LAST record with that code.
   */
  lemma {:induction false} CodeNamesLastWins(data: seq<BandwidthData>, code: string)
    ensures var i := LastWithCode(data, code);
            Get(CodeNames(data), code) == if i < 0 then None else Some(data[i].country)
  {
    if data != [] {
      var n := |data| - 1;
      CodeNamesLastWins(data[..n], code);
      if data[n].countryCode != code {
        var i := LastWithCode(data[..n], code);
        if 0 <= i { assert data[..n][i] == data[i]; }
      }
    }
  }

  /** `Array.from(yearsSet).sort((a, b) => a - b)` orders years numerically. */
  predicate IntLt(a: int, b: int)
  {
    a < b
  }

  lemma IntLtIsStrictWeakOrder()
    ensures StrictWeakOrder(IntLt)
  {
  }

  lemma StrLtIsStrictWeakOrder()
    ensures StrictWeakOrder(StrLt)
  {
    forall a, b | StrLt(a, b) ensures !StrLt(b, a) {
      if StrLt(b, a) {
        StrLtTransitive(a, b, a);
        StrLtIrreflexive(a);
      }
    }
    forall a, b, c | !StrLt(b, a) && !StrLt(c, b) ensures !StrLt(c, a) {
      if StrLt(c, a) {
        if a != b { StrLtTotal(a, b); }
        if b != c { StrLtTotal(b, c); }
        if a != b && b != c { StrLtTransitive(a, b, c); }
        if a == c {
          StrLtIrreflexive(a);
        } else if a != b && b != c {
          StrLtTransitive(c, a, c);
          StrLtIrreflexive(c);
        }
      }
    }
  }

  /** `x || fallback` on a number: 0 (like undefined) is falsy. */
  function OrDefault(x: Option<int>, fallback: int): int
  {
    if x.Some? && x.value != 0 then x.value else fallback
  }

  predicate StrictlyAscending(s: seq<int>)
  {
    forall i, j :: 0 <= i < j < |s| ==> s[i] < s[j]
  }

  /** Sorting a sequence of distinct years numerically makes it strictly ascending. */
  lemma {:induction false} SortedDistinctAscending(ys: seq<int>)
    requires Distinct(ys)
    ensures StrictlyAscending(Sort(ys, IntLt))
  {
    var s := Sort(ys, IntLt);
    IntLtIsStrictWeakOrder();
    SortIsSorted(ys, IntLt);
    DistinctPermutation(ys, s);
  }

  // ---------------------------------------------------------------------------
  // parseCSVData
  // ---------------------------------------------------------------------------

  /**
   * `parseCSVData`: keeps the valid records in line order, and builds the
   * facets from them.
   */
  method ParseCsvData(csvText: string, parseInt: IntParser, parseFloat: FloatParser) returns (p: ProcessedData)
    ensures p.allData == Records(DataLines(csvText), parseInt, parseFloat)
    ensures AllValid(p.allData)
    ensures |p.allData| <= |DataLines(csvText)|
    ensures StrictlyAscending(p.years)
    ensures forall y :: y in p.years <==> HasYear(p.allData, y)
    ensures p.minYear == if |p.years| > 0 && p.years[0] != 0 then p.years[0] else DefaultMinYear
    ensures p.maxYear == if |p.years| > 0 && p.years[|p.years| - 1] != 0 then p.years[|p.years| - 1] else DefaultMaxYear
    ensures SortedBy(p.countries, StrLt)
    ensures multiset(p.countries) == multiset(Values(CodeNames(p.allData)))
  {
    var lines := DataLines(csvText);
    var allData, yearsSet, countriesMap := ReadRows(lines, parseInt, parseFloat);
    var years := Sort(yearsSet, IntLt);
    var countries := Sort(Values(countriesMap), StrLt);
    SortedDistinctAscending(yearsSet);
    StrLtIsStrictWeakOrder();
    SortIsSorted(Values(countriesMap), StrLt);
    assert forall y :: y in years <==> y in multiset(yearsSet);
    var first := if |years| > 0 then Some(years[0]) else None;
    var last := if |years| > 0 then Some(years[|years| - 1]) else None;
    p := ProcessedData(allData, countries, years, OrDefault(first, DefaultMinYear), OrDefault(last, DefaultMaxYear));
  }

  /**
   * The `forEach` loop of `parseCSVData`: each line that yields a record
   * appends it to `allData`, adds its year to `yearsSet` and sets its code's
   * name in `countriesMap`.
   */
  method ReadRows(lines: seq<string>, parseInt: IntParser, parseFloat: FloatParser)
    returns (allData: seq<BandwidthData>, yearsSet: seq<int>, countriesMap: Entries<string, string>)
    ensures allData == Records(lines, parseInt, parseFloat)
    ensures yearsSet == YearsSeen(allData)
    ensures countriesMap == CodeNames(allData)
  {
    allData := [];
    yearsSet := [];
    countriesMap := [];
    var i := 0;
    while i < |lines|
      invariant 0 <= i <= |lines|
      invariant allData == Records(lines[..i], parseInt, parseFloat)
      invariant yearsSet == YearsSeen(allData)
      invariant countriesMap == CodeNames(allData)
    {
      var row := ParseRow(lines[i], parseInt, parseFloat);
      RecordsStep(lines, i, parseInt, parseFloat);
      if row.Some? {
        var dataPoint := row.value;
        assert (allData + [dataPoint])[..|allData|] == allData;
        allData := allData + [dataPoint];
        yearsSet := SetAdd(yearsSet, dataPoint.year);
        countriesMap := MapSet(countriesMap, dataPoint.countryCode, dataPoint.country);
      }
      i := i + 1;
    }
    assert lines[..i] == lines;
  }

}
