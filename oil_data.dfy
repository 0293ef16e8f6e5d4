/** The typed records the pipeline passes between its stages: dates, the
    year-month periods they fall in, the four fuel grades and their prices. */
module OilData {
  import opened Wrappers
  import opened Text

  /** The years a pandas timestamp can hold (1677-09-21 to 2262-04-11); all
      of them print as four digits. */
  type Year = y: int | 1677 <= y <= 2262 witness 1970
  type Month = m: int | 1 <= m <= 12 witness 1
  type Day = d: int | 1 <= d <= 31 witness 1

  datatype Date = Date(year: Year, month: Month, day: Day)

  /** A calendar month: pandas' `Period` with frequency `M`. */
  datatype YearMonth = YearMonth(year: Year, month: Month)

  function MonthOf(d: Date): YearMonth
  {
    YearMonth(d.year, d.month)
  }

  /** The chronological order of periods. */
  predicate Before(a: YearMonth, b: YearMonth)
  {
    a.year < b.year || (a.year == b.year && a.month < b.month)
  }

  /** A period written as four-digit year, separator, two-digit month:
      `strftime('%Y/%m')` with `/`, `str(Period)` with `-`. */
  function PeriodText(k: YearMonth, sep: char): (r: string)
    ensures |r| == 7 && r[4] == sep
  {
    Pad4(k.year) + [sep] + Pad2(k.month)
  }

  /** The text of a period determines the period. */
  lemma PeriodTextInjective(a: YearMonth, b: YearMonth, sep: char)
    requires PeriodText(a, sep) == PeriodText(b, sep)
    ensures a == b
  {
    var ta, tb := PeriodText(a, sep), PeriodText(b, sep);
    assert ta[..4] == Pad4(a.year) && tb[..4] == Pad4(b.year);
    assert ta[5..] == Pad2(a.month) && tb[5..] == Pad2(b.month);
    Pad4RoundTrip(a.year);
    Pad4RoundTrip(b.year);
    Pad2RoundTrip(a.month);
    Pad2RoundTrip(b.month);
  }

  /** The four fuel grades; `FuelOrder` is the order of the price columns. */
  datatype Fuel = Unleaded92 | Unleaded95 | Unleaded98 | Diesel

  const FuelOrder: seq<Fuel> := [Unleaded92, Unleaded95, Unleaded98, Diesel]

  /** The position of a fuel in `FuelOrder`. */
  function Rank(f: Fuel): (n: nat)
    ensures n < |FuelOrder| && FuelOrder[n] == f
  {
    match f
    case Unleaded92 => 0
    case Unleaded95 => 1
    case Unleaded98 => 2
    case Diesel => 3
  }

  /** One price per fuel grade, each independently missing. */
  datatype FuelPrices = FuelPrices(u92: Option<real>, u95: Option<real>, u98: Option<real>, diesel: Option<real>)
  {
    function Get(f: Fuel): Option<real>
    {
      match f
      case Unleaded92 => u92
      case Unleaded95 => u95
      case Unleaded98 => u98
      case Diesel => diesel
    }
  }

  /** A normalised table row: its adjustment date (missing when it does not
      parse) and its four prices. */
  datatype PriceRecord = PriceRecord(date: Option<Date>, prices: FuelPrices)
}
