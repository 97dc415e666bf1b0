/** The command-line entry point: the day count typed by the user is
    checked against [1, MaxDays] before a fetcher is built, and a valid count
    runs the fetch of all dates. Reading and parsing the input, and printing
    the report, are console I/O and not modelled. */
module Cli {
  import opened Wrappers
  import opened Rates
  import opened Fetcher

  /** The range check of the entry point, stricter than the constructor's. */
  function CheckDays(days: int): (r: Result<int, ConfigError>)
    ensures r.Success? <==> 1 <= days <= MaxDays
    ensures r.Success? ==> r.value == days
  {
    if days > MaxDays || days <= 0 then Failure(DaysOutOfRange(days))
    else Success(days)
  }

  /** Check the count, build the fetcher, fetch. A refused count fails before
      any fetch, and only the entry point's own error can surface: a count it
      accepts is always accepted by the constructor. */
  function Run<V>(days: int, dateOf: nat -> DateKey, respond: DateKey -> Response<V>): (r: Result<Report<V>, ConfigError>)
    ensures r.Failure? <==> days < 1 || days > MaxDays
    ensures r.Failure? ==> r.error == DaysOutOfRange(days)
    ensures r.Success? ==> |r.value| <= days
  {
    var d :- CheckDays(days);
    match NewFetcher(d)
    case Failure(e) => Failure(e)
    case Success(fetcher) =>
      Success(GetExchangeRates(fetcher, dateOf, respond))
  }
}
