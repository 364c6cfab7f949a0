/**
 * The query functions the dashboard runs over the parsed records:
 * `filterData`, `getTopCountries`, `getTrendData`, `calculateGlobalAverage`,
 * `calculateYoYGrowth` and `getFastestGrowing`.
 *
 * Numbers are exact reals; `limit` is an integer and `slice(0, limit)`
 * keeps JavaScript's meaning for a negative limit.
 */
module Queries {

  import opened Wrappers
  import opened JsCollections
  import opened Bandwidth

  // ---------------------------------------------------------------------------
  // Record predicates and orders
  // ---------------------------------------------------------------------------

  function InYear(year: int): BandwidthData -> bool
  {
    (d: BandwidthData) => d.year == year
  }

  function OfCountry(country: string): BandwidthData -> bool
  {
    (d: BandwidthData) => d.country == country
  }

  function WithValue(value: real): BandwidthData -> bool
  {
    (d: BandwidthData) => d.value == value
  }

  /** `data.filter(d => d.year === year)` */
  function YearData(data: seq<BandwidthData>, year: int): (r: seq<BandwidthData>)
    ensures forall d :: d in r <==> d in data && d.year == year
  {
    FilterMembers(data, InYear(year));
    Filter(data, InYear(year))
  }

  /** The comparator `(a, b) => b.value - a.value` is negative: `a` goes first. */
  predicate ByValueDesc(a: BandwidthData, b: BandwidthData)
  {
    a.value > b.value
  }

  /** The comparator `(a, b) => a.year - b.year` is negative: `a` goes first. */
  predicate ByYearAsc(a: BandwidthData, b: BandwidthData)
  {
    a.year < b.year
  }

  lemma ByValueDescIsStrictWeakOrder()
    ensures StrictWeakOrder(ByValueDesc)
  {
  }

  lemma ByYearAscIsStrictWeakOrder()
    ensures StrictWeakOrder(ByYearAsc)
  {
  }

  // ---------------------------------------------------------------------------
  // filterData
  // ---------------------------------------------------------------------------

  /** The per-record test of `filterData`: an empty selection means every country. */
  predicate Selected(d: BandwidthData, selectedCountries: seq<string>, selectedYear: int)
  {
    (|selectedCountries| == 0 || d.country in selectedCountries) && d.year == selectedYear
  }

  function SelectedBy(selectedCountries: seq<string>, selectedYear: int): BandwidthData -> bool
  {
    (d: BandwidthData) => Selected(d, selectedCountries, selectedYear)
  }

  /** `filterData`: the records of the selected year and, if any are selected, countries. */
  function FilterData(data: seq<BandwidthData>, selectedCountries: seq<string>, selectedYear: int): (r: seq<BandwidthData>)
    ensures forall d :: d in r <==> d in data && Selected(d, selectedCountries, selectedYear)
  {
    FilterMembers(data, SelectedBy(selectedCountries, selectedYear));
    Filter(data, SelectedBy(selectedCountries, selectedYear))
  }

  /**
   * `filterData` keeps the input order and drops nothing it should keep:
   * every selected record occurs as often as in the input, every other not at all.
   */
  lemma FilterDataSpec(data: seq<BandwidthData>, selectedCountries: seq<string>, selectedYear: int)
    ensures var r := FilterData(data, selectedCountries, selectedYear);
            && IsSubsequence(r, data)
            && forall d :: multiset(r)[d] == if Selected(d, selectedCountries, selectedYear) then multiset(data)[d] else 0
  {
    FilterIsSubsequence(data, SelectedBy(selectedCountries, selectedYear));
    FilterCounts(data, SelectedBy(selectedCountries, selectedYear));
  }

  // ---------------------------------------------------------------------------
  // getTopCountries
  // ---------------------------------------------------------------------------

  /** `getTopCountries`: that year's records by descending value, cut to `limit`. */
  function TopCountries(data: seq<BandwidthData>, year: int, limit: int := 10): (r: seq<BandwidthData>)
    ensures |r| == SliceEnd(|YearData(data, year)|, limit)
    ensures forall i :: 0 <= i < |r| ==> r[i].year == year
  {
    var sorted := Sort(YearData(data, year), ByValueDesc);
    var r := SliceTo(sorted, limit);
    assert forall i :: 0 <= i < |r| ==> r[i] == sorted[i] && r[i] in multiset(sorted);
    r
  }

  /** The records come in non-increasing order of value. */
  lemma TopCountriesOrdered(data: seq<BandwidthData>, year: int, limit: int)
    ensures var r := TopCountries(data, year, limit);
            forall i, j :: 0 <= i < j < |r| ==> r[i].value >= r[j].value
  {
    ByValueDescIsStrictWeakOrder();
    SortIsSorted(YearData(data, year), ByValueDesc);
  }

  /** The records are taken from that year's records, each at most as often as it occurs there. */
  lemma TopCountriesFromYear(data: seq<BandwidthData>, year: int, limit: int)
    ensures multiset(TopCountries(data, year, limit)) <= multiset(YearData(data, year))
  {
    var t := Sort(YearData(data, year), ByValueDesc);
    var r := TopCountries(data, year, limit);
    assert t == r + t[|r|..];
    assert multiset(t) == multiset(r) + multiset(t[|r|..]);
  }

  /** No record of that year left out has a larger value than a record kept. */
  lemma TopCountriesAreTop(data: seq<BandwidthData>, year: int, limit: int)
    ensures var r := TopCountries(data, year, limit);
            var yd := YearData(data, year);
            forall x, y :: x in r && y in multiset(yd) - multiset(r) ==> y.value <= x.value
  {
    var yd := YearData(data, year);
    var r := TopCountries(data, year, limit);
    assert r == SliceTo(Sort(yd, ByValueDesc), limit);
    ByValueDescIsStrictWeakOrder();
    SortPrefixIsTop(yd, ByValueDesc, limit);
    forall x: BandwidthData, y: BandwidthData | x in r && y in multiset(yd) - multiset(r) ensures y.value <= x.value {
      assert !ByValueDesc(y, x);
    }
  }

  /** Ties keep the input order: among records of equal value, the kept ones are the first ones. */
  lemma TopCountriesStable(data: seq<BandwidthData>, year: int, limit: int, value: real)
    ensures IsPrefix(Filter(TopCountries(data, year, limit), WithValue(value)),
                     Filter(YearData(data, year), WithValue(value)))
  {
    var yd := YearData(data, year);
    var t := Sort(yd, ByValueDesc);
    var k := SliceEnd(|t|, limit);
    assert TopCountries(data, year, limit) == t[..k];
    SortIsStable(yd, ByValueDesc, WithValue(value));
    CutFilterIsPrefix(t, k, WithValue(value));
  }

  // ---------------------------------------------------------------------------
  // getTrendData
  // ---------------------------------------------------------------------------

  /** One trend series: the country's records sorted by year. */
  function Series(data: seq<BandwidthData>, country: string): (s: seq<BandwidthData>)
    ensures multiset(s) == multiset(Filter(data, OfCountry(country)))
  {
    Sort(Filter(data, OfCountry(country)), ByYearAsc)
  }

  /** A series is non-empty exactly when the country has data. */
  lemma SeriesNonEmptyIff(data: seq<BandwidthData>, country: string)
    ensures Series(data, country) != [] <==> HasCountry(data, country)
  {
    var f := Filter(data, OfCountry(country));
    var s := Series(data, country);
    FilterMembers(data, OfCountry(country));
    if s != [] {
      assert s[0] in multiset(f);
      assert s[0] in data;
      var k :| 0 <= k < |data| && data[k] == s[0];
    }
    if HasCountry(data, country) {
      var i :| 0 <= i < |data| && data[i].country == country;
      assert data[i] in f;
      assert data[i] in multiset(s);
    }
  }

  /** A series holds only that country's records, in ascending year order. */
  lemma SeriesOrdered(data: seq<BandwidthData>, country: string)
    ensures var s := Series(data, country);
            && (forall i :: 0 <= i < |s| ==> s[i].country == country)
            && forall i, j :: 0 <= i < j < |s| ==> s[i].year <= s[j].year
  {
    var f := Filter(data, OfCountry(country));
    var s := Series(data, country);
    FilterMembers(data, OfCountry(country));
    ByYearAscIsStrictWeakOrder();
    SortIsSorted(f, ByYearAsc);
    forall i | 0 <= i < |s| ensures s[i].country == country {
      assert s[i] in multiset(f);
      assert s[i] in f;
      assert OfCountry(country)(s[i]);
    }
  }

  /** Records of the same year keep their input order in the series (the sort is stable). */
  lemma SeriesStable(data: seq<BandwidthData>, country: string, year: int)
    ensures Filter(Series(data, country), InYear(year)) == Filter(Filter(data, OfCountry(country)), InYear(year))
  {
    SortIsStable(Filter(data, OfCountry(country)), ByYearAsc, InYear(year));
  }

  /**
   * The keys of the map `getTrendData` builds, in insertion order: each
   * requested country that has data, placed at its first request.
   */
  function TrendKeys(data: seq<BandwidthData>, countries: seq<string>): (ks: seq<string>)
    ensures Distinct(ks)
    ensures forall c :: c in ks <==> c in countries && HasCountry(data, c)
  {
    if countries == [] then []
    else
      var init := countries[..|countries| - 1];
      var country := countries[|countries| - 1];
      assert countries == init + [country];
      var ks := TrendKeys(data, init);
      if HasCountry(data, country) then SetAdd(ks, country) else ks
  }

  /** Each key of `ks` comes before the later ones in `countries` too. */
  ghost predicate InRequestOrder(ks: seq<string>, countries: seq<string>)
  {
    forall i, j :: 0 <= i < j < |ks| ==> IndexOf(countries, ks[i]) < IndexOf(countries, ks[j])
  }

  /** The keys come in the order of their first request. */
  lemma {:induction false} TrendKeysOrder(data: seq<BandwidthData>, countries: seq<string>)
    ensures InRequestOrder(TrendKeys(data, countries), countries)
  {
    if countries != [] {
      var init := countries[..|countries| - 1];
      var country := countries[|countries| - 1];
      assert countries == init + [country];
      var ks := TrendKeys(data, init);
      TrendKeysOrder(data, init);
      var added := HasCountry(data, country) && country !in ks;
      assert TrendKeys(data, countries) == if added then ks + [country] else ks;
      assert forall k :: 0 <= k < |ks| ==> ks[k] in init;
      RequestOrderAppend(ks, init, country, added);
    }
  }

  /** Requesting one more country keeps the order, whether or not its key is added. */
  lemma RequestOrderAppend(ks: seq<string>, init: seq<string>, country: string, added: bool)
    requires InRequestOrder(ks, init)
    requires forall k :: 0 <= k < |ks| ==> ks[k] in init
    requires added ==> country !in init
    ensures InRequestOrder(if added then ks + [country] else ks, init + [country])
  {
    var countries := init + [country];
    forall k | 0 <= k < |ks| ensures IndexOf(countries, ks[k]) == IndexOf(init, ks[k]) < |init| {
      IndexOfAppend(init, country, ks[k]);
    }
    if added {
      var ks' := ks + [country];
      IndexOfAppendNew(init, country);
      forall i, j | 0 <= i < j < |ks'| ensures IndexOf(countries, ks'[i]) < IndexOf(countries, ks'[j]) {
        assert ks'[i] == ks[i];
        if j == |ks| {
          assert ks'[j] == country;
        } else {
          assert ks'[j] == ks[j];
        }
      }
    }
  }

  /**
   * `getTrendData`: the map's keys are the requested countries that have
   * data, each at its first request, and each maps to its series.
   */
  method GetTrendData(data: seq<BandwidthData>, countries: seq<string>) returns (trendMap: Entries<string, seq<BandwidthData>>)
    ensures Keys(trendMap) == TrendKeys(data, countries)
    ensures forall c :: c in Keys(trendMap) ==> Get(trendMap, c) == Some(Series(data, c))
  {
    trendMap := [];
    var i := 0;
    while i < |countries|
      invariant 0 <= i <= |countries|
      invariant Keys(trendMap) == TrendKeys(data, countries[..i])
      invariant forall c :: c in Keys(trendMap) ==> Get(trendMap, c) == Some(Series(data, c))
    {
      var country := countries[i];
      var countryData := Series(data, country);
      SeriesNonEmptyIff(data, country);
      assert countries[..i + 1][..i] == countries[..i];
      if |countryData| > 0 {
        trendMap := MapSet(trendMap, country, countryData);
      }
      i := i + 1;
    }
    assert countries[..i] == countries;
  }

  // ---------------------------------------------------------------------------
  // calculateGlobalAverage and calculateYoYGrowth
  // ---------------------------------------------------------------------------

  /** `reduce((acc, d) => acc + d.value, 0)`; exact real addition does not depend on the order. */
  function Sum(s: seq<BandwidthData>): real
  {
    if s == [] then 0.0 else s[0].value + Sum(s[1..])
  }

  /** `calculateGlobalAverage`: the mean value of that year's records, 0 when there are none. */
  function GlobalAverage(data: seq<BandwidthData>, year: int): (avg: real)
    ensures YearData(data, year) == [] ==> avg == 0.0
  {
    var yearData := YearData(data, year);
    if |yearData| == 0 then 0.0 else Sum(yearData) / (|yearData| as real)
  }

  /** Smallest value in a non-empty list of records. */
  function MinValue(s: seq<BandwidthData>): (m: real)
    requires s != []
    ensures exists i :: 0 <= i < |s| && s[i].value == m
    ensures forall i :: 0 <= i < |s| ==> m <= s[i].value
  {
    if |s| == 1 then s[0].value
    else
      var rest := MinValue(s[1..]);
      assert forall i :: 1 <= i < |s| ==> s[i] == s[1..][i - 1];
      if s[0].value <= rest then s[0].value else rest
  }

  /** Largest value in a non-empty list of records. */
  function MaxValue(s: seq<BandwidthData>): (m: real)
    requires s != []
    ensures exists i :: 0 <= i < |s| && s[i].value == m
    ensures forall i :: 0 <= i < |s| ==> s[i].value <= m
  {
    if |s| == 1 then s[0].value
    else
      var rest := MaxValue(s[1..]);
      assert forall i :: 1 <= i < |s| ==> s[i] == s[1..][i - 1];
      if s[0].value >= rest then s[0].value else rest
  }

  lemma {:induction false} SumBounds(s: seq<BandwidthData>, lo: real, hi: real)
    requires forall i :: 0 <= i < |s| ==> lo <= s[i].value <= hi
    ensures (|s| as real) * lo <= Sum(s) <= (|s| as real) * hi
  {
    if s != [] {
      assert forall i :: 0 <= i < |s| - 1 ==> s[1..][i] == s[i + 1];
      SumBounds(s[1..], lo, hi);
    }
  }

  /** The average of a year with data lies between that year's smallest and largest value. */
  lemma GlobalAverageBounds(data: seq<BandwidthData>, year: int)
    requires HasYear(data, year)
    ensures YearData(data, year) != []
    ensures MinValue(YearData(data, year)) <= GlobalAverage(data, year) <= MaxValue(YearData(data, year))
  {
    var yd := YearData(data, year);
    var i :| 0 <= i < |data| && data[i].year == year;
    assert data[i] in yd;
    MeanWithin(yd, MinValue(yd), MaxValue(yd));
  }

  /** The mean of values that all lie in [lo, hi] lies in [lo, hi]. */
  lemma MeanWithin(s: seq<BandwidthData>, lo: real, hi: real)
    requires s != []
    requires forall i :: 0 <= i < |s| ==> lo <= s[i].value <= hi
    ensures lo <= Sum(s) / (|s| as real) <= hi
  {
    SumBounds(s, lo, hi);
    MeanBetween(Sum(s), |s| as real, lo, hi);
  }

  lemma MeanBetween(sum: real, n: real, lo: real, hi: real)
    requires n > 0.0 && n * lo <= sum <= n * hi
    ensures lo <= sum / n <= hi
  {
    assert sum == (sum / n) * n;
  }

  /** A year's records are non-empty exactly when some record is from that year. */
  lemma YearDataNonEmptyIff(data: seq<BandwidthData>, year: int)
    ensures YearData(data, year) != [] <==> HasYear(data, year)
  {
    var yd := YearData(data, year);
    if yd != [] {
      assert yd[0] in data;
      var k :| 0 <= k < |data| && data[k] == yd[0];
    }
    if HasYear(data, year) {
      var i :| 0 <= i < |data| && data[i].year == year;
      assert data[i] in yd;
    }
  }

  /** For parsed records (all values positive) the average is 0 exactly when the year has no records. */
  lemma GlobalAverageZeroIffNoData(data: seq<BandwidthData>, year: int)
    requires AllValid(data)
    ensures GlobalAverage(data, year) == 0.0 <==> !HasYear(data, year)
    ensures HasYear(data, year) ==> GlobalAverage(data, year) > 0.0
  {
    YearDataNonEmptyIff(data, year);
    if HasYear(data, year) {
      GlobalAverageBounds(data, year);
      var yd := YearData(data, year);
      var k :| 0 <= k < |yd| && yd[k].value == MinValue(yd);
      assert yd[k] in data;
    }
  }

  /** Percentage change from `previous` to `current`. */
  function GrowthPercent(current: real, previous: real): real
    requires previous != 0.0
  {
    (current - previous) / previous * 100.0
  }

  /**
   * From a positive base to a non-negative value the change is positive
   * exactly when the value rose, 0 exactly when it stayed, and at least
   * -100%, reached exactly when the value is 0.
   */
  lemma GrowthPercentSign(current: real, previous: real)
    requires previous > 0.0 && current >= 0.0
    ensures GrowthPercent(current, previous) > 0.0 <==> current > previous
    ensures GrowthPercent(current, previous) == 0.0 <==> current == previous
    ensures GrowthPercent(current, previous) >= -100.0
    ensures GrowthPercent(current, previous) == -100.0 <==> current == 0.0
  {
    var q := (current - previous) / previous;
    assert q * previous == current - previous;
    assert GrowthPercent(current, previous) == q * 100.0;
  }

  /** `calculateYoYGrowth`: change of the average against the year before, 0 when that average is 0. */
  function YoYGrowth(data: seq<BandwidthData>, year: int): (g: real)
  {
    var currentAvg := GlobalAverage(data, year);
    var previousAvg := GlobalAverage(data, year - 1);
    if previousAvg == 0.0 then 0.0 else GrowthPercent(currentAvg, previousAvg)
  }

  /**
   * For parsed records: 0 when the year before has no records; otherwise
   * positive exactly when the average rose, 0 exactly when it stayed, and
   * never below -100%, which it reaches exactly when the year itself has no records.
   */
  lemma YoYGrowthSpec(data: seq<BandwidthData>, year: int)
    requires AllValid(data)
    ensures !HasYear(data, year - 1) ==> YoYGrowth(data, year) == 0.0
    ensures HasYear(data, year - 1) ==>
      var g := YoYGrowth(data, year);
      && (g > 0.0 <==> GlobalAverage(data, year) > GlobalAverage(data, year - 1))
      && (g == 0.0 <==> GlobalAverage(data, year) == GlobalAverage(data, year - 1))
      && g >= -100.0
      && (g == -100.0 <==> !HasYear(data, year))
  {
    GlobalAverageZeroIffNoData(data, year - 1);
    GlobalAverageZeroIffNoData(data, year);
    if HasYear(data, year - 1) {
      GrowthPercentSign(GlobalAverage(data, year), GlobalAverage(data, year - 1));
    }
  }

  // ---------------------------------------------------------------------------
  // getFastestGrowing
  // ---------------------------------------------------------------------------

  datatype CountryGrowth = CountryGrowth(country: string, growth: real)

  /** The comparator `(a, b) => b.growth - a.growth` is negative: `a` goes first. */
  predicate ByGrowthDesc(a: CountryGrowth, b: CountryGrowth)
  {
    a.growth > b.growth
  }

  lemma ByGrowthDescIsStrictWeakOrder()
    ensures StrictWeakOrder(ByGrowthDesc)
  {
  }

  /** `s.find(p => p.country === country)`: the first record of that country. */
  function FindCountry(s: seq<BandwidthData>, country: string): (r: Option<BandwidthData>)
    ensures r.None? <==> !HasCountry(s, country)
    ensures r.Some? ==> exists i :: 0 <= i < |s| && s[i] == r.value && r.value.country == country
                          && forall j :: 0 <= j < i ==> s[j].country != country
  {
    if s == [] then None
    else if s[0].country == country then Some(s[0])
    else
      var r := FindCountry(s[1..], country);
      assert forall i :: 1 <= i < |s| ==> s[i] == s[1..][i - 1];
      r
  }

  /** The last record of that country. */
  function LastOfCountry(s: seq<BandwidthData>, country: string): (r: Option<BandwidthData>)
    ensures r.None? <==> !HasCountry(s, country)
    ensures r.Some? ==> exists i :: 0 <= i < |s| && s[i] == r.value && r.value.country == country
                          && forall j :: i < j < |s| ==> s[j].country != country
  {
    if s == [] then None
    else if s[|s| - 1].country == country then Some(s[|s| - 1])
    else
      var r := LastOfCountry(s[..|s| - 1], country);
      assert forall i :: 0 <= i < |s| - 1 ==> s[i] == s[..|s| - 1][i];
      r
  }

  /**
   * The growth `getFastestGrowing` reports for a country, given that year's
   * and the previous year's records: from the country's LAST current-year
   * record against its FIRST previous-year record, when that one is positive.
   */
  function GrowthFrom(current: seq<BandwidthData>, previous: seq<BandwidthData>, country: string): Option<real>
  {
    var cur := LastOfCountry(current, country);
    var prev := FindCountry(previous, country);
    if cur.Some? && prev.Some? && prev.value.value > 0.0 then
      Some(GrowthPercent(cur.value.value, prev.value.value))
    else None
  }

  /** The growth of `country` between `year - 1` and `year`, if it has one. */
  function CountryGrowthIn(data: seq<BandwidthData>, year: int, country: string): Option<real>
  {
    GrowthFrom(YearData(data, year), YearData(data, year - 1), country)
  }

  /** For parsed records a country has a growth exactly when it has records in both years. */
  lemma CountryGrowthInBothYears(data: seq<BandwidthData>, year: int, country: string)
    requires AllValid(data)
    ensures CountryGrowthIn(data, year, country).Some? <==>
              HasCountry(YearData(data, year), country) && HasCountry(YearData(data, year - 1), country)
  {
    var prev := FindCountry(YearData(data, year - 1), country);
    if prev.Some? {
      assert prev.value in data;
    }
  }

  /** The growth map's entries as `{country, growth}` objects. */
  function GrowthList(m: Entries<string, real>): (r: seq<CountryGrowth>)
    ensures |r| == |m|
    ensures forall k :: 0 <= k < |m| ==> r[k] == CountryGrowth(m[k].0, m[k].1)
  {
    seq(|m|, k requires 0 <= k < |m| => CountryGrowth(m[k].0, m[k].1))
  }

  /**
   * `getFastestGrowing`: the countries with a growth between `year - 1` and
   * `year`, each once with its growth, by descending growth, cut to `limit`;
   * no country left out grew more than one listed, and none is left out
   * unless the limit was reached.
   */
  method GetFastestGrowing(data: seq<BandwidthData>, year: int, limit: int := 5) returns (r: seq<CountryGrowth>)
    ensures forall i :: 0 <= i < |r| ==> CountryGrowthIn(data, year, r[i].country) == Some(r[i].growth)
    ensures forall i, j :: 0 <= i < j < |r| ==> r[i].country != r[j].country
    ensures forall i, j :: 0 <= i < j < |r| ==> r[i].growth >= r[j].growth
    ensures 0 <= limit ==> |r| <= limit
    ensures forall c, i :: (CountryGrowthIn(data, year, c).Some? && 0 <= i < |r|
              && forall j :: 0 <= j < |r| ==> r[j].country != c) ==> CountryGrowthIn(data, year, c).value <= r[i].growth
    ensures 0 <= limit && |r| < limit ==>
              forall c :: CountryGrowthIn(data, year, c).Some? ==> exists j :: 0 <= j < |r| && r[j].country == c
    ensures |r| == SliceEnd(|GrowthCountries(data, year)|, limit)
  {
    var currentYear := YearData(data, year);
    var previousYear := YearData(data, year - 1);
    var growthMap := CollectGrowth(currentYear, previousYear);
    var entries := GrowthList(growthMap);
    var sorted := Sort(entries, ByGrowthDesc);
    r := SliceTo(sorted, limit);
    RankingFacts(growthMap, r, c => CountryGrowthIn(data, year, c), limit);
    RankingLength(growthMap, r, data, year, limit);
  }

  /** The countries that have a growth between `year - 1` and `year`. */
  function GrowthCountries(data: seq<BandwidthData>, year: int): (cs: set<string>)
    ensures forall c :: c in cs <==> CountryGrowthIn(data, year, c).Some?
  {
    var cs := set d | d in YearData(data, year) && CountryGrowthIn(data, year, d.country).Some? :: d.country;
    forall c | CountryGrowthIn(data, year, c).Some? ensures c in cs {
      var cur := LastOfCountry(YearData(data, year), c);
      assert cur.value in YearData(data, year);
    }
    cs
  }

  /** The cut growth list has `slice(0, limit)`'s length of the list of all countries with a growth. */
  lemma RankingLength(m: Entries<string, real>, r: seq<CountryGrowth>, data: seq<BandwidthData>, year: int, limit: int)
    requires Distinct(Keys(m))
    requires forall c :: Get(m, c) == CountryGrowthIn(data, year, c)
    requires r == SliceTo(Sort(GrowthList(m), ByGrowthDesc), limit)
    ensures |r| == SliceEnd(|GrowthCountries(data, year)|, limit)
  {
    var ks := Keys(m);
    forall c ensures c in ks <==> c in GrowthCountries(data, year) {
      assert Get(m, c).Some? <==> c in ks;
    }
    assert (set x | x in ks) == GrowthCountries(data, year);
    DistinctCard(ks);
  }

  /**
   * The `growthMap` loop of `getFastestGrowing`: for each current-year record
   * whose country has a positive previous-year record, set that country's
   * growth; a later record of the same country overwrites an earlier one.
   */
  method CollectGrowth(currentYear: seq<BandwidthData>, previousYear: seq<BandwidthData>)
    returns (growthMap: Entries<string, real>)
    ensures Distinct(Keys(growthMap))
    ensures forall c :: Get(growthMap, c) == GrowthFrom(currentYear, previousYear, c)
  {
    growthMap := [];
    var i := 0;
    while i < |currentYear|
      invariant 0 <= i <= |currentYear|
      invariant Distinct(Keys(growthMap))
      invariant HoldsGrowth(growthMap, currentYear[..i], previousYear)
    {
      var current := currentYear[i];
      var previous := FindCountry(previousYear, current.country);
      if previous.Some? && previous.value.value > 0.0 {
        var growth := GrowthPercent(current.value, previous.value.value);
        GrowthMapSet(growthMap, currentYear, previousYear, i, growth);
        growthMap := MapSet(growthMap, current.country, growth);
      } else {
        GrowthMapKeep(growthMap, currentYear, previousYear, i);
      }
      i := i + 1;
    }
    assert currentYear[..i] == currentYear;
  }

  /** One step of the growth-map loop. */
  lemma GrowthFromStep(current: seq<BandwidthData>, previous: seq<BandwidthData>, i: nat)
    requires i < |current|
    ensures forall c :: c != current[i].country ==>
              GrowthFrom(current[..i + 1], previous, c) == GrowthFrom(current[..i], previous, c)
    ensures GrowthFrom(current[..i + 1], previous, current[i].country) ==
              var p := FindCountry(previous, current[i].country);
              if p.Some? && p.value.value > 0.0 then Some(GrowthPercent(current[i].value, p.value.value))
              else GrowthFrom(current[..i], previous, current[i].country)
  {
    var s := current[..i + 1];
    assert s[..|s| - 1] == current[..i];
  }

  /** `m` maps each country to its growth between the two years' records. */
  ghost predicate HoldsGrowth(m: Entries<string, real>, current: seq<BandwidthData>, previous: seq<BandwidthData>)
  {
    forall c :: Get(m, c) == GrowthFrom(current, previous, c)
  }

  /** A current-year record whose country has a positive previous-year record sets that country's growth. */
  lemma GrowthMapSet(m: Entries<string, real>, current: seq<BandwidthData>, previous: seq<BandwidthData>, i: nat, growth: real)
    requires i < |current|
    requires HoldsGrowth(m, current[..i], previous)
    requires var p := FindCountry(previous, current[i].country);
             p.Some? && p.value.value > 0.0 && growth == GrowthPercent(current[i].value, p.value.value)
    ensures HoldsGrowth(MapSet(m, current[i].country, growth), current[..i + 1], previous)
  {
    GrowthFromStep(current, previous, i);
  }

  /** Any other current-year record leaves the growth map as it is. */
  lemma GrowthMapKeep(m: Entries<string, real>, current: seq<BandwidthData>, previous: seq<BandwidthData>, i: nat)
    requires i < |current|
    requires HoldsGrowth(m, current[..i], previous)
    requires var p := FindCountry(previous, current[i].country);
             !(p.Some? && p.value.value > 0.0)
    ensures HoldsGrowth(m, current[..i + 1], previous)
  {
    GrowthFromStep(current, previous, i);
  }

  /** Every entry of the growth list is a country's growth, and every country with a growth has one entry. */
  lemma GrowthListFacts(m: Entries<string, real>, g: string -> Option<real>)
    requires Distinct(Keys(m))
    requires forall c :: Get(m, c) == g(c)
    ensures var l := GrowthList(m);
            && Distinct(l)
            && (forall k :: 0 <= k < |l| ==> g(l[k].country) == Some(l[k].growth))
            && (forall k, k' :: 0 <= k < k' < |l| ==> l[k].country != l[k'].country)
            && forall c :: g(c).Some? ==> CountryGrowth(c, g(c).value) in l
  {
    var l := GrowthList(m);
    forall k | 0 <= k < |l| ensures g(l[k].country) == Some(l[k].growth) {
      assert Keys(m)[k] == m[k].0;
      IndexOfKeyIs(m, m[k].0, k);
    }
    forall c | g(c).Some? ensures CountryGrowth(c, g(c).value) in l {
      var k := IndexOfKey(m, c);
      assert l[k] == CountryGrowth(c, m[k].1);
    }
  }

  /**
   * What the sorted, cut growth list promises (the last part of
   * `GetFastestGrowing`), for any per-country growth `g` the map holds.
   */
  lemma RankingFacts(m: Entries<string, real>, r: seq<CountryGrowth>, g: string -> Option<real>, limit: int)
    requires Distinct(Keys(m))
    requires forall c :: Get(m, c) == g(c)
    requires r == SliceTo(Sort(GrowthList(m), ByGrowthDesc), limit)
    ensures forall i :: 0 <= i < |r| ==> g(r[i].country) == Some(r[i].growth)
    ensures forall i, j :: 0 <= i < j < |r| ==> r[i].country != r[j].country
    ensures forall i, j :: 0 <= i < j < |r| ==> r[i].growth >= r[j].growth
    ensures 0 <= limit ==> |r| <= limit
    ensures forall c, i :: (g(c).Some? && 0 <= i < |r| && forall j :: 0 <= j < |r| ==> r[j].country != c) ==>
              g(c).value <= r[i].growth
    ensures 0 <= limit && |r| < limit ==> forall c :: g(c).Some? ==> exists j :: 0 <= j < |r| && r[j].country == c
  {
    var entries := GrowthList(m);
    GrowthListFacts(m, g);
    CutMembers(entries, r, limit);
    CutOrdered(entries, r, limit);
    CutTop(entries, r, limit);
    CutComplete(entries, r, limit);
    forall i, j | 0 <= i < j < |r| ensures r[i].country != r[j].country {
      assert r[i] in entries && r[j] in entries;
    }
    AbsentRanksLower(entries, r, g);
    if 0 <= limit && |r| < limit {
      AllRanked(entries, r, g);
    }
  }

  /** A country left out of the cut grows no faster than any country in it. */
  lemma AbsentRanksLower(entries: seq<CountryGrowth>, r: seq<CountryGrowth>, g: string -> Option<real>)
    requires forall c :: g(c).Some? ==> CountryGrowth(c, g(c).value) in entries
    requires forall e, x :: e in entries && e !in r && x in r ==> e.growth <= x.growth
    ensures forall c, i :: (g(c).Some? && 0 <= i < |r| && forall j :: 0 <= j < |r| ==> r[j].country != c) ==>
              g(c).value <= r[i].growth
  {
    forall c, i | g(c).Some? && 0 <= i < |r| && (forall j :: 0 <= j < |r| ==> r[j].country != c)
      ensures g(c).value <= r[i].growth
    {
      var e := CountryGrowth(c, g(c).value);
      assert e !in r;
    }
  }

  /** When the cut kept every entry, every country with a growth is in it. */
  lemma AllRanked(entries: seq<CountryGrowth>, r: seq<CountryGrowth>, g: string -> Option<real>)
    requires forall c :: g(c).Some? ==> CountryGrowth(c, g(c).value) in entries
    requires forall e :: e in entries ==> e in r
    ensures forall c :: g(c).Some? ==> exists j :: 0 <= j < |r| && r[j].country == c
  {
    forall c | g(c).Some? ensures exists j :: 0 <= j < |r| && r[j].country == c {
      var e := CountryGrowth(c, g(c).value);
      var j :| 0 <= j < |r| && r[j] == e;
    }
  }

  /** The cut list holds distinct entries of the list it was cut from, at most `limit` of them. */
  lemma CutMembers(entries: seq<CountryGrowth>, r: seq<CountryGrowth>, limit: int)
    requires Distinct(entries)
    requires r == SliceTo(Sort(entries, ByGrowthDesc), limit)
    ensures forall i :: 0 <= i < |r| ==> r[i] in entries
    ensures Distinct(r)
    ensures 0 <= limit ==> |r| <= limit
  {
    var sorted := Sort(entries, ByGrowthDesc);
    DistinctPermutation(entries, sorted);
    assert r == sorted[..|r|];
    forall i | 0 <= i < |r| ensures r[i] in entries {
      assert r[i] == sorted[i];
      assert sorted[i] in multiset(entries);
    }
  }

  /** The cut list comes in non-increasing order of growth. */
  lemma CutOrdered(entries: seq<CountryGrowth>, r: seq<CountryGrowth>, limit: int)
    requires r == SliceTo(Sort(entries, ByGrowthDesc), limit)
    ensures forall i, j :: 0 <= i < j < |r| ==> r[i].growth >= r[j].growth
  {
    var sorted := Sort(entries, ByGrowthDesc);
    ByGrowthDescIsStrictWeakOrder();
    SortIsSorted(entries, ByGrowthDesc);
    assert forall i :: 0 <= i < |r| ==> r[i] == sorted[i];
  }

  /** An entry left out of the cut list grew no more than any entry kept. */
  lemma CutTop(entries: seq<CountryGrowth>, r: seq<CountryGrowth>, limit: int)
    requires r == SliceTo(Sort(entries, ByGrowthDesc), limit)
    ensures forall e, x :: e in entries && e !in r && x in r ==> e.growth <= x.growth
  {
    ByGrowthDescIsStrictWeakOrder();
    SortPrefixIsTop(entries, ByGrowthDesc, limit);
    forall e, x | e in entries && e !in r && x in r ensures e.growth <= x.growth {
      assert multiset(r)[e] == 0 && multiset(entries)[e] > 0;
      assert e in multiset(entries) - multiset(r);
      assert !ByGrowthDesc(e, x);
    }
  }

  /** A cut list shorter than `limit` keeps every entry. */
  lemma CutComplete(entries: seq<CountryGrowth>, r: seq<CountryGrowth>, limit: int)
    requires r == SliceTo(Sort(entries, ByGrowthDesc), limit)
    ensures 0 <= limit && |r| < limit ==> forall e :: e in entries ==> e in r
  {
    var sorted := Sort(entries, ByGrowthDesc);
    if 0 <= limit && |r| < limit {
      assert r == sorted;
      forall e | e in entries ensures e in r {
        assert e in multiset(sorted);
      }
    }
  }

}
