/** Two end-to-end runs over a deterministic stand-in for the server. */
module Scenarios {
  import opened Wrappers
  import opened Rates
  import opened Fetcher
  import opened FetcherProps
  import opened Cli

  const Today: DateKey := "10.10.2026"
  const Yesterday: DateKey := "09.10.2026"

  function TwoDays(i: nat): DateKey {
    if i == 0 then Today else Yesterday
  }

  function Record(code: CurrencyCode, sale: real, purchase: real): Item<real> {
    Object(CurrencyRecord(Some(code), Some(sale), Some(purchase)))
  }

  /** A full answer: an unrelated currency, then EUR and USD. */
  const FullAnswer: Response<real> :=
    Reply(HttpOk, Some(Document(Some(Items([
      Record("PLN", 10.2, 9.9),
      Record(EUR, 41.0, 40.5),
      Record(USD, 38.0, 37.6)])))))

  const FullRates: Currencies<real> :=
    map[EUR := Some(Rate(41.0, 40.5)), USD := Some(Rate(38.0, 37.6))]

  function AlwaysFull(date: DateKey): Response<real> {
    FullAnswer
  }

  function YesterdayNotFound(date: DateKey): Response<real> {
    if date == Today then FullAnswer else Reply(404, None)
  }

  /** The full answer parses to both currencies' rates. */
  lemma FullAnswerParses(date: DateKey)
    ensures FetchExchangeRate(date, FullAnswer) == map[date := FullRates]
  {
    var items := FullAnswer.body.value.exchangeRate.value.items;
    assert "PLN"[0] != EUR[0] && "PLN"[0] != USD[0] && EUR[0] != USD[0];
    ExtractRateFirstMatch(items, EUR, 1);
    ExtractRateFirstMatch(items, USD, 2);
  }

  /** Two days, both answered: two entries with both currencies filled. */
  lemma BothDatesAnswered()
    ensures Run(2, TwoDays, AlwaysFull) == Success([map[Today := FullRates], map[Yesterday := FullRates]])
  {
    FullAnswerParses(Today);
    FullAnswerParses(Yesterday);
    var results := Gather(RequestedDates(2, TwoDays), AlwaysFull);
    assert results == [map[Today := FullRates], map[Yesterday := FullRates]];
    KeepNonEmptyAllKept(results);
  }

  /** Two days, one answered 404: exactly one entry, for the other date. */
  lemma OneDateNotFound()
    ensures Run(2, TwoDays, YesterdayNotFound) == Success([map[Today := FullRates]])
  {
    FullAnswerParses(Today);
    assert Today[0] != Yesterday[0];
    var results := Gather(RequestedDates(2, TwoDays), YesterdayNotFound);
    assert results == [map[Today := FullRates], map[]];
    assert results[1..][1..] == [];
    assert KeepNonEmpty(results[1..]) == [];
    assert KeepNonEmpty(results) == [map[Today := FullRates]];
    assert Run(2, TwoDays, YesterdayNotFound) == Success(KeepNonEmpty(results));
  }
}
