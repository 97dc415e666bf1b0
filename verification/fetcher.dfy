/** The exchange-rate fetcher: day-count check, rate extraction, shaping of
    one date's answer, and the partial-failure filter over all dates. The
    network call and the concurrent fan-out are replaced by a `respond`
    function giving the outcome of the GET for each date. */
module Fetcher {
  import opened Wrappers
  import opened Rates

  // ---------------------------------------------------------------------
  // Construction
  // ---------------------------------------------------------------------

  datatype ExchangeRateFetcher = ExchangeRateFetcher(days: int)

  /** The constructor refuses more than MaxDays days and nothing else: zero
      and negative counts are accepted. */
  function NewFetcher(days: int): (r: Result<ExchangeRateFetcher, ConfigError>)
    ensures r.Failure? <==> days > MaxDays
    ensures r.Success? ==> r.value.days == days
    ensures r.Failure? ==> r.error == TooManyDays(days)
  {
    if days > MaxDays then Failure(TooManyDays(days))
    else Success(ExchangeRateFetcher(days))
  }

  // ---------------------------------------------------------------------
  // Rate extraction
  // ---------------------------------------------------------------------

  /** `rate.get('currency') == currency` on an object item. */
  predicate Matches<V>(item: Item<V>, code: CurrencyCode) {
    item.Object? && item.record.currency == Some(code)
  }

  /** The rate a matching record yields: `rate['saleRate']` is read first,
      then `rate['purchaseRate']`, and a missing key raises. */
  function RecordRate<V>(rec: CurrencyRecord<V>): (r: Result<Option<Rate<V>>, FetchError>)
    ensures r.Success? <==> rec.saleRate.Some? && rec.purchaseRate.Some?
    ensures r.Success? ==> r.value == Some(Rate(rec.saleRate.value, rec.purchaseRate.value))
    ensures r.Failure? ==> r.error.MissingKey?
  {
    if rec.saleRate.None? then Failure(MissingKey("saleRate"))
    else if rec.purchaseRate.None? then Failure(MissingKey("purchaseRate"))
    else Success(Some(Rate(rec.saleRate.value, rec.purchaseRate.value)))
  }

  /** `_extract_rate`: scan the items in order and return the rate of the
      first one whose currency is `code`, or None (the empty `{}`) when no
      item matches. A non-object item met before the match raises. */
  function ExtractRate<V>(rates: seq<Item<V>>, code: CurrencyCode): (r: Result<Option<Rate<V>>, FetchError>)
    ensures r == Success(None) <==>
              forall i :: 0 <= i < |rates| ==> rates[i].Object? && !Matches(rates[i], code)
    ensures r.Success? && r.value.Some? ==>
              exists i :: 0 <= i < |rates| && Matches(rates[i], code)
                          && rates[i].record.saleRate == Some(r.value.value.sale)
                          && rates[i].record.purchaseRate == Some(r.value.value.purchase)
    decreases |rates|
  {
    if |rates| == 0 then Success(None)
    else match rates[0]
      case NonObject => Failure(NonObjectItem)
      case Object(rec) =>
        if Matches(rates[0], code) then RecordRate(rec)
        else
          var rest := ExtractRate(rates[1..], code);
          assert forall i :: 1 <= i < |rates| ==> rates[i] == rates[1..][i - 1];
          rest
  }

  // ---------------------------------------------------------------------
  // One date
  // ---------------------------------------------------------------------

  /** The body of the `try` block of `fetch_exchange_rate`, with every raise
      made a Failure. */
  function FetchOne<V>(response: Response<V>): (r: Result<Currencies<V>, FetchError>)
    ensures r.Success? ==> r.value.Keys == {EUR, USD}
    ensures r.Success? <==>
              && response.Reply?
              && response.status == HttpOk
              && response.body.Some?
              && response.body.value.exchangeRate.Some?
              && response.body.value.exchangeRate.value.Items?
              && ExtractRate(response.body.value.exchangeRate.value.items, EUR).Success?
              && ExtractRate(response.body.value.exchangeRate.value.items, USD).Success?
    ensures r.Success? ==>
              var items := response.body.value.exchangeRate.value.items;
              && r.value[EUR] == ExtractRate(items, EUR).value
              && r.value[USD] == ExtractRate(items, USD).value
  {
    match response
    case TransportFailure => Failure(Transport)
    case Reply(status, body) =>
      if status != HttpOk then Failure(BadStatus(status))
      else if body.None? then Failure(UndecodableBody)
      else if body.value.exchangeRate.None? then Failure(MissingKey("exchangeRate"))
      else match body.value.exchangeRate.value
        case NotIterable => Failure(NotIterableRates)
        case Items(items) =>
          var eur :- ExtractRate(items, EUR);
          var usd :- ExtractRate(items, USD);
          Success(map[EUR := eur, USD := usd])
  }

  /** `fetch_exchange_rate`: every failure of the `try` block is caught and
      turned into the empty map, so the result is `{date: currencies}` or
      `{}`. */
  function FetchExchangeRate<V>(date: DateKey, response: Response<V>): (r: DayResult<V>)
    ensures r.Keys <= {date}
    ensures date in r <==> FetchOne(response).Success?
    ensures date in r ==> r[date] == FetchOne(response).value
  {
    match FetchOne(response)
    case Success(currencies) => map[date := currencies]
    case Failure(_) => map[]
  }

  // ---------------------------------------------------------------------
  // All dates
  // ---------------------------------------------------------------------

  /** The dates requested by a fetcher: `dateOf(i)` is today minus `i` days,
      for `i` in `range(days)`, which is empty when `days <= 0`. */
  function RequestedDates(days: int, dateOf: nat -> DateKey): (dates: seq<DateKey>)
    ensures |dates| == if days > 0 then days else 0
    ensures forall i :: 0 <= i < |dates| ==> dates[i] == dateOf(i)
  {
    seq(if days > 0 then days else 0, (i: nat) => dateOf(i))
  }

  /** The fan-out and fan-in: one fetch per date, results in request order,
      since gathering keeps the order of its inputs. */
  function Gather<V>(dates: seq<DateKey>, respond: DateKey -> Response<V>): (results: seq<DayResult<V>>)
    ensures |results| == |dates|
    ensures forall i :: 0 <= i < |dates| ==> results[i] == FetchExchangeRate(dates[i], respond(dates[i]))
  {
    seq(|dates|, i requires 0 <= i < |dates| => FetchExchangeRate(dates[i], respond(dates[i])))
  }

  /** `[result for result in results if result]`: drop the empty maps and
      keep the others in order. */
  function KeepNonEmpty<V>(results: seq<DayResult<V>>): (kept: seq<DayResult<V>>)
    ensures |kept| <= |results|
    ensures forall k :: 0 <= k < |kept| ==> |kept[k]| > 0
  {
    if |results| == 0 then []
    else if |results[0]| > 0 then [results[0]] + KeepNonEmpty(results[1..])
    else KeepNonEmpty(results[1..])
  }

  /** `get_exchange_rates`. */
  function GetExchangeRates<V>(fetcher: ExchangeRateFetcher, dateOf: nat -> DateKey,
                               respond: DateKey -> Response<V>): (report: Report<V>)
    ensures |report| <= if fetcher.days > 0 then fetcher.days else 0
  {
    KeepNonEmpty(Gather(RequestedDates(fetcher.days, dateOf), respond))
  }
}
