/** The data the exchange-rate fetcher reads and produces.

    The upstream API answers a GET for one date with a JSON object whose
    `exchangeRate` key holds an array of currency objects
    (`currency`, `saleRate`, `purchaseRate`, among other keys the program
    never looks at). The program turns each answer into a per-date result
    `{date: {"EUR": rate-or-{}, "USD": rate-or-{}}}` or `{}`. */
module Rates {
  import opened Wrappers

  /** A date formatted `DD.MM.YYYY`; it names both the request and the result. */
  type DateKey = string

  type CurrencyCode = string

  const EUR: CurrencyCode := "EUR"
  const USD: CurrencyCode := "USD"

  /** The only HTTP status the fetcher accepts. */
  const HttpOk: int := 200

  /** The largest number of days the fetcher and the command line accept. */
  const MaxDays: int := 10

  /** One JSON object of the `exchangeRate` array, reduced to the three keys
      the program reads. A field is None when its key is absent; `currency` is
      also None when its value is not a string, since no such value can equal
      a currency code. The rate values are never computed on, so their type is
      the parameter V (floats, or null, in the wire format). */
  datatype CurrencyRecord<V> = CurrencyRecord(
    currency: Option<string>,
    saleRate: Option<V>,
    purchaseRate: Option<V>)

  /** One element met while iterating the `exchangeRate` value: a JSON object,
      or anything else (string, number, array, null), on which `.get` raises. */
  datatype Item<V> = Object(record: CurrencyRecord<V>) | NonObject

  /** The `exchangeRate` value as a `for` loop sees it. An array yields its
      elements; a string or an object yields strings (its characters or its
      keys), which are NonObject items; a number, boolean or null cannot be
      iterated at all. */
  datatype RateList<V> = Items(items: seq<Item<V>>) | NotIterable

  /** The decoded body when it is a JSON object: the value under
      `exchangeRate`, if the key is present. */
  datatype Document<V> = Document(exchangeRate: Option<RateList<V>>)

  /** What one GET produced. `body` is None when decoding the body as JSON
      fails or yields something other than an object (subscripting it with
      `'exchangeRate'` then raises). */
  datatype Response<V> =
    | TransportFailure
    | Reply(status: int, body: Option<Document<V>>)

  /** A `{'sale': …, 'purchase': …}` entry. */
  datatype Rate<V> = Rate(sale: V, purchase: V)

  /** The rates of one date: a map from currency code to a rate, or None for
      the empty `{}` entry of a currency the answer does not list. */
  type Currencies<V> = map<CurrencyCode, Option<Rate<V>>>

  /** What fetching one date returns: `{date: currencies}` or `{}`. */
  type DayResult<V> = map<DateKey, Currencies<V>>

  /** The aggregated report: the non-empty day results, in request order. */
  type Report<V> = seq<DayResult<V>>

  /** Why one fetch failed. The program prints the reason and drops the date;
      the model keeps it so that the failing step can be named. */
  datatype FetchError =
    | Transport
    | BadStatus(status: int)
    | UndecodableBody
    | MissingKey(key: string)
    | NotIterableRates
    | NonObjectItem

  /** Why a day count was refused. */
  datatype ConfigError =
    | TooManyDays(days: int)
    | DaysOutOfRange(days: int)
}
