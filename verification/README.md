# USD-EUR exchange-rate fetcher, modelled in Dafny

The program asks the user for a number of days (at most 10). For each of the
last that many dates it requests the PrivatBank archive rates. It builds, per
date, `{date: {"EUR": rate, "USD": rate}}`, where each rate is
`{sale, purchase}`, or the empty `{}` when the answer does not list that
currency. It then prints the dates whose fetch succeeded, each with its
currency entries. Printing an empty `{}` entry raises an uncaught KeyError,
so the program stops partway through the report in that case. A failed
fetch prints `An error occurred: …` (main.py:30) and drops its date.
Failures include a non-200 status, an undecodable body, a missing
`exchangeRate` key, and a matching currency record that lacks a rate key.

The model covers the pure logic of `ExchangeRateFetcher`:

- `wrappers.dfy`: `Option` and `Result`. `Result` works with `:-`, which
  stands for a Python exception propagating out of a block.
- `rates.dfy` (module `Rates`): the data. A `CurrencyRecord` has optional
  `currency`, `saleRate` and `purchaseRate` fields. An `Item` is an
  `exchangeRate` element, which may not be an object. The `exchangeRate`
  value is a `RateList`; a decoded body is a `Document`. `Response` is the
  abstract outcome of one GET. A `Currencies` map holds one date's entries;
  `DayResult` is one date's result; `Report` is the final list. Rate values
  are never computed on, so they have an opaque type parameter `V`.
- `fetcher.dfy` (module `Fetcher`): the constructor's check, `_extract_rate`,
  the `try` block of `fetch_exchange_rate` and the `except` that catches its
  failures, the list of requested dates, the gather, and the non-empty filter.
- `fetcher_props.dfy` (module `FetcherProps`): lemmas. Extraction is a
  first-stop scan. A broken matching record drops the whole date, while an
  absent currency only empties its own entry. The report is exactly the
  non-empty results in request order, one requested date each, with no
  repeats.
- `cli.dfy` (module `Cli`): the entry point's 1..10 range check, which runs
  ahead of the constructor.
- `scenarios.dfy` (module `Scenarios`): two concrete runs over a fixed
  stand-in server. In one both dates are answered; in the other one date
  gets a 404.

The outcome of each GET is an input: `respond: DateKey -> Response<V>`. The
dates are an input too: `dateOf: nat -> DateKey` gives today minus `i` days,
formatted.

Results are in request order, because `asyncio.gather` keeps its inputs'
order.

The two day-count checks differ. The `ExchangeRateFetcher` constructor
rejects only counts above 10 (main.py:10-11). A count of 0 or less gives an
empty `range(days)`, so no fetch happens and the report is empty. Only the
command-line entry point rejects counts of 0 or less (main.py:61-62), as its
message "від 1 до 10" (from 1 to 10) says. The model keeps both checks:
`NewFetcher` accepts such counts, and `Cli.CheckDays` refuses them.

## Model

| member | source | states |
|---|---|---|
| Fetcher.NewFetcher | main.py:9-12 | The constructor fails exactly when days > 10, with that count; any other integer, zero and negatives included, gives a fetcher holding it |
| Fetcher.RecordRate | main.py:36-39 | A matching record yields its sale and purchase values when both keys are present and a missing-key failure otherwise |
| Fetcher.ExtractRate | main.py:33-40 | The result is the empty entry exactly when every item is an object whose currency is not the code; a rate it returns is the sale/purchase pair of some item whose currency is the code |
| FetcherProps.ExtractRateFirstStop | main.py:34-40 | The scan's result is decided by the first item that is either a non-object (failure) or a match (that record's rate or missing-key failure) |
| FetcherProps.ExtractRateFirstMatch | main.py:34-39 | When every earlier item is an object of another currency, the first matching record supplies the result |
| FetcherProps.ExtractRateIgnoresLater | main.py:34-39 | Once the scan has stopped in a prefix, appending any items, later matches included, leaves the result unchanged |
| FetcherProps.ExtractRateAbsent | main.py:35-40 | A list of objects none of which carries the code, records without a currency key included, yields the empty entry and not an error |
| Fetcher.FetchOne | main.py:16-28 | Succeeds exactly on status 200 with an object body whose exchangeRate is iterable and both extractions succeed; the result has exactly the keys EUR and USD, each holding its extraction |
| Fetcher.FetchExchangeRate | main.py:14-31 | The result's keys are within {date}; the date is present exactly when the try block succeeds, mapped to what it built; otherwise the map is empty |
| FetcherProps.FailedReplyYieldsEmpty | main.py:17-31 | A transport failure, a non-200 status, an undecodable body or a body without exchangeRate yields the empty map |
| FetcherProps.GoodReplyShape | main.py:21-28 | A 200 answer whose two extractions succeed yields a one-key map from the date to a map with exactly EUR and USD, each the extracted entry |
| FetcherProps.BrokenMatchDropsDate | main.py:22-39 | A first matching EUR or USD record missing saleRate or purchaseRate makes the whole date's result empty |
| FetcherProps.AbsentCurrencyKeepsDate | main.py:22-40 | When EUR or USD is absent and the other currency's extraction succeeds, the date is kept with an empty entry for the absent currency and the other's extracted entry |
| Fetcher.RequestedDates | main.py:44 | max(days, 0) dates, the i-th being today minus i days |
| Fetcher.Gather | main.py:46-47 | One result per requested date, in request order, each the fetch of that date |
| Fetcher.KeepNonEmpty | main.py:48 | The filtered list is no longer than its input and holds only non-empty results |
| FetcherProps.KeepNonEmptySelects | main.py:48 | The filtered list is the input taken at strictly increasing positions that are exactly the positions of non-empty results |
| FetcherProps.KeepNonEmptyAllKept | main.py:48 | A list with no empty result passes the filter unchanged |
| Fetcher.GetExchangeRates | main.py:42-48 | The report has at most max(days, 0) entries |
| FetcherProps.ReportEntriesAreRequested | main.py:42-48 | Each report entry is one requested date, whose fetch succeeded, mapped to the rates that fetch built; the entries' day offsets strictly increase, so the report follows request order |
| FetcherProps.SuccessfulFetchesAppear | main.py:42-48 | Every requested date whose fetch succeeded appears in the report with its rates |
| FetcherProps.ReportDatesDistinct | main.py:44-48 | With distinct requested dates, no two report entries share a date |
| FetcherProps.AllSucceedFullReport | main.py:44-48 | When every fetch succeeds, the report has one entry per day, the k-th for the k-th date |
| Cli.CheckDays | main.py:59-65 | The entry point accepts exactly the counts 1..10 and keeps the count unchanged |
| Cli.Run | main.py:57-68 | The run fails exactly for counts outside 1..10, always with the entry point's own error, never the constructor's; a run that goes ahead reports at most days entries |
| Scenarios.FullAnswerParses | main.py:21-39 | A 200 answer listing PLN, EUR and USD gives the EUR and USD rates, with PLN ignored |
| Scenarios.BothDatesAnswered | main.py:42-48 | Two days, both answered in full: two entries, in request order, each with both currencies |
| Scenarios.OneDateNotFound | main.py:42-48 | Two days, one answered 404: exactly one entry, for the answered date |

## Left out

- The aiohttp session, `session.get`, `response.json()` and the concurrent `asyncio.gather` fan-out are network I/O and concurrency. Each fetch is the abstract `Response` given by `respond`. JSON decoding is folded into `Document`: `body` is None when decoding fails or the value is not an object.
- Building the request URL from `BASE_URL`. Its only use is the network call.
- Calendar arithmetic and `strftime('%d.%m.%Y')`. The dates are the parameter `dateOf`. `ReportDatesDistinct` assumes they are distinct rather than deriving it from the calendar.
- The float values of `saleRate` and `purchaseRate`, and JSON null among them. They are only copied, so they are the opaque type `V`.
- `print_exchange_rates` reads `values['sale']` on every currency entry (main.py:55). On the empty `{}` entry of an absent currency this raises a KeyError that nothing catches, so the program stops partway through printing. The model stops at the report and does not model this crash.
- The diagnostic `print` in the `except` block, the rest of `print_exchange_rates`, the `input` prompt and the `int()` parsing of the answer, including its rejection of non-integers. These are console I/O. `Cli.Run` starts from an integer count.
- The distinct Python exception classes. `FetchError` names the failing step instead. The program discards the error in any case.
- A `currency` value that is not a string is modelled as absent. No string code can equal it, so the outcome is the same.
