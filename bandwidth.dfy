/** The records the data processor produces (`BandwidthData`, `ProcessedData`). */
module Bandwidth {

  import opened JsText

  /** One measurement: a country's bandwidth per capita (Kbps) in one year. */
  datatype BandwidthData = BandwidthData(country: string, countryCode: string, year: int, value: real)

  /** The parsed dataset and its facets. */
  datatype ProcessedData = ProcessedData(
    allData: seq<BandwidthData>,
    countries: seq<string>,
    years: seq<int>,
    minYear: int,
    maxYear: int)

  /** What the parser guarantees of every record it keeps. */
  predicate ValidRecord(d: BandwidthData)
  {
    && d.countryCode != [] && Trim(d.countryCode) == d.countryCode
    && d.country != [] && Trim(d.country) == d.country
    && d.value > 0.0
  }

  predicate AllValid(data: seq<BandwidthData>)
  {
    forall i :: 0 <= i < |data| ==> ValidRecord(data[i])
  }

  /** Some record of `data` is about `country`. */
  predicate HasCountry(data: seq<BandwidthData>, country: string)
  {
    exists i :: 0 <= i < |data| && data[i].country == country
  }

  /** Some record of `data` is from `year`. */
  predicate HasYear(data: seq<BandwidthData>, year: int)
  {
    exists i :: 0 <= i < |data| && data[i].year == year
  }

}
