/** Properties of the fetcher model: first-match extraction, the asymmetry
    between an absent currency and a broken matching record, the shape of
    one date's result, and what the aggregated report keeps. */
module FetcherProps {
  import opened Wrappers
  import opened Rates
  import opened Fetcher

  // ---------------------------------------------------------------------
  // Rate extraction is a first-stop scan
  // ---------------------------------------------------------------------

  /** The scan of `_extract_rate` ends at an item when it raises there
      (a non-object) or returns there (a match). */
  predicate Stops<V>(item: Item<V>, code: CurrencyCode) {
    item.NonObject? || Matches(item, code)
  }

  /** What the scan produces when it ends at `item`. */
  function StopResult<V>(item: Item<V>): Result<Option<Rate<V>>, FetchError> {
    match item
    case NonObject => Failure(NonObjectItem)
    case Object(rec) => RecordRate(rec)
  }

  /** The result is decided by the first item at which the scan stops;
      nothing after it is looked at. */
  lemma {:induction false} ExtractRateFirstStop<V>(rates: seq<Item<V>>, code: CurrencyCode, i: nat)
    requires i < |rates|
    requires Stops(rates[i], code)
    requires forall j :: 0 <= j < i ==> !Stops(rates[j], code)
    ensures ExtractRate(rates, code) == StopResult(rates[i])
  {
    if i > 0 {
      assert !Stops(rates[0], code);
      forall j | 0 <= j < i - 1
        ensures !Stops(rates[1..][j], code)
      {
        assert rates[1..][j] == rates[j + 1];
      }
      ExtractRateFirstStop(rates[1..], code, i - 1);
    }
  }

  /** In particular, the first object whose currency is `code` supplies the
      answer when every item before it is an object of another currency. */
  lemma ExtractRateFirstMatch<V>(rates: seq<Item<V>>, code: CurrencyCode, i: nat)
    requires i < |rates| && Matches(rates[i], code)
    requires forall j :: 0 <= j < i ==> rates[j].Object? && !Matches(rates[j], code)
    ensures ExtractRate(rates, code) == RecordRate(rates[i].record)
  {
    ExtractRateFirstStop(rates, code, i);
  }

  /** Once the scan has stopped within `prefix`, whatever follows it, later
      matching records included, never changes the result. */
  lemma {:induction false} ExtractRateIgnoresLater<V>(prefix: seq<Item<V>>, suffix: seq<Item<V>>, code: CurrencyCode)
    requires ExtractRate(prefix, code) != Success(None)
    ensures ExtractRate(prefix + suffix, code) == ExtractRate(prefix, code)
  {
    assert |prefix| > 0;
    assert (prefix + suffix)[0] == prefix[0];
    if !Stops(prefix[0], code) {
      assert (prefix + suffix)[1..] == prefix[1..] + suffix;
      ExtractRateIgnoresLater(prefix[1..], suffix, code);
    }
  }

  /** A list in which no object carries `code` (objects without a
      `currency` key included) yields the empty entry, not an error. */
  lemma ExtractRateAbsent<V>(rates: seq<Item<V>>, code: CurrencyCode)
    requires forall i :: 0 <= i < |rates| ==> rates[i].Object? && rates[i].record.currency != Some(code)
    ensures ExtractRate(rates, code) == Success(None)
  {
  }

  // ---------------------------------------------------------------------
  // One date
  // ---------------------------------------------------------------------

  /** A successful answer: status 200 and a JSON object whose
      `exchangeRate` is the list `items`. */
  ghost predicate AnswersWith<V>(response: Response<V>, items: seq<Item<V>>) {
    response == Reply(HttpOk, Some(Document(Some(Items(items)))))
  }

  /** A status other than 200, an unreachable server, an undecodable body,
      or a body without `exchangeRate` all yield the empty map. */
  lemma FailedReplyYieldsEmpty<V>(date: DateKey, response: Response<V>)
    requires || response.TransportFailure?
             || (response.Reply? && response.status != HttpOk)
             || (response.Reply? && response.body.None?)
             || (response.Reply? && response.body.Some? && response.body.value.exchangeRate.None?)
    ensures FetchExchangeRate(date, response) == map[]
  {
  }

  /** A 200 answer whose list has no broken match for either currency yields
      `{date: {"EUR": …, "USD": …}}`, each entry the first match's rate or the
      empty entry. */
  lemma GoodReplyShape<V>(date: DateKey, response: Response<V>, items: seq<Item<V>>)
    requires AnswersWith(response, items)
    requires ExtractRate(items, EUR).Success? && ExtractRate(items, USD).Success?
    ensures var r := FetchExchangeRate(date, response);
            && r.Keys == {date}
            && r[date].Keys == {EUR, USD}
            && r[date][EUR] == ExtractRate(items, EUR).value
            && r[date][USD] == ExtractRate(items, USD).value
  {
  }

  /** A matching record without `saleRate` or `purchaseRate` raises inside
      the `try` block, so the whole date is dropped, not just its entry. */
  lemma BrokenMatchDropsDate<V>(date: DateKey, response: Response<V>, items: seq<Item<V>>,
                                code: CurrencyCode, i: nat)
    requires AnswersWith(response, items)
    requires code == EUR || code == USD
    requires i < |items| && Matches(items[i], code)
    requires items[i].record.saleRate.None? || items[i].record.purchaseRate.None?
    requires forall j :: 0 <= j < i ==> items[j].Object? && !Matches(items[j], code)
    ensures FetchExchangeRate(date, response) == map[]
  {
    ExtractRateFirstMatch(items, code, i);
  }

  /** A currency the list does not mention only empties its own entry: the
      date stays, with the other currency's entry as its extraction gave it. */
  lemma AbsentCurrencyKeepsDate<V>(date: DateKey, response: Response<V>, items: seq<Item<V>>, code: CurrencyCode)
    requires AnswersWith(response, items)
    requires code == EUR || code == USD
    requires ExtractRate(items, if code == EUR then USD else EUR).Success?
    requires forall i :: 0 <= i < |items| ==> items[i].Object? && items[i].record.currency != Some(code)
    ensures var other := if code == EUR then USD else EUR;
            FetchExchangeRate(date, response)
              == map[date := map[code := None, other := ExtractRate(items, other).value]]
  {
    ExtractRateAbsent(items, code);
    var currencies := FetchOne(response).value;
    if code == EUR {
      assert currencies == map[EUR := None, USD := ExtractRate(items, USD).value];
    } else {
      assert currencies == map[EUR := ExtractRate(items, EUR).value, USD := None];
      assert map[USD := None, EUR := ExtractRate(items, EUR).value] == currencies;
    }
  }

  // ---------------------------------------------------------------------
  // The report
  // ---------------------------------------------------------------------

  /** `kept` is the selection of `results` at the strictly increasing
      positions `idx`, and those positions are exactly the non-empty ones. */
  ghost predicate SelectsNonEmpty<V>(kept: seq<DayResult<V>>, results: seq<DayResult<V>>, idx: seq<nat>) {
    && |idx| == |kept|
    && (forall k :: 0 <= k < |idx| ==> idx[k] < |results| && kept[k] == results[idx[k]])
    && (forall k, l :: 0 <= k < l < |idx| ==> idx[k] < idx[l])
    && (forall i :: 0 <= i < |results| ==> (|results[i]| > 0 <==> i in idx))
  }

  /** Every position moved one place right. */
  function Shift(idx: seq<nat>): (s: seq<nat>)
    ensures |s| == |idx|
    ensures forall k :: 0 <= k < |idx| ==> s[k] == idx[k] + 1
  {
    seq(|idx|, k requires 0 <= k < |idx| => idx[k] + 1)
  }

  /** A shifted position list holds `i` exactly when the original held
      `i - 1`, and never holds 0. */
  lemma ShiftMembership(idx: seq<nat>, i: nat)
    ensures i in Shift(idx) <==> i > 0 && i - 1 in idx
  {
    if i > 0 && i - 1 in idx {
      var k :| 0 <= k < |idx| && idx[k] == i - 1;
      assert Shift(idx)[k] == i;
    }
  }

  /** Putting a non-empty result in front of a selection shifts its
      positions and adds the front position. */
  lemma SelectsConsKept<V>(head: DayResult<V>, kept: seq<DayResult<V>>, tail: seq<DayResult<V>>, rest: seq<nat>)
    requires |head| > 0
    requires SelectsNonEmpty(kept, tail, rest)
    ensures SelectsNonEmpty([head] + kept, [head] + tail, [0] + Shift(rest))
  {
    var results := [head] + tail;
    var idx := [0] + Shift(rest);
    forall i | 0 <= i < |results|
      ensures |results[i]| > 0 <==> i in idx
    {
      ShiftMembership(rest, i);
      if i > 0 {
        assert results[i] == tail[i - 1];
      }
    }
    forall k | 0 <= k < |idx|
      ensures idx[k] < |results| && ([head] + kept)[k] == results[idx[k]]
    {
      if k > 0 {
        assert idx[k] == rest[k - 1] + 1;
      }
    }
  }

  /** Putting an empty result in front of a selection only shifts its
      positions. */
  lemma SelectsConsDropped<V>(head: DayResult<V>, kept: seq<DayResult<V>>, tail: seq<DayResult<V>>, rest: seq<nat>)
    requires |head| == 0
    requires SelectsNonEmpty(kept, tail, rest)
    ensures SelectsNonEmpty(kept, [head] + tail, Shift(rest))
  {
    var results := [head] + tail;
    var idx := Shift(rest);
    forall i | 0 <= i < |results|
      ensures |results[i]| > 0 <==> i in idx
    {
      ShiftMembership(rest, i);
      if i > 0 {
        assert results[i] == tail[i - 1];
      }
    }
  }

  /** The filter keeps exactly the non-empty results, in their order. */
  lemma {:induction false} KeepNonEmptySelects<V>(results: seq<DayResult<V>>) returns (idx: seq<nat>)
    ensures SelectsNonEmpty(KeepNonEmpty(results), results, idx)
  {
    if |results| == 0 {
      idx := [];
    } else {
      var rest := KeepNonEmptySelects(results[1..]);
      assert [results[0]] + results[1..] == results;
      if |results[0]| > 0 {
        SelectsConsKept(results[0], KeepNonEmpty(results[1..]), results[1..], rest);
        idx := [0] + Shift(rest);
      } else {
        SelectsConsDropped(results[0], KeepNonEmpty(results[1..]), results[1..], rest);
        idx := Shift(rest);
      }
    }
  }

  /** The dates of a fetcher with this many days, distinct. */
  ghost predicate DistinctDates(days: int, dateOf: nat -> DateKey) {
    forall i: nat, j: nat :: i < j < days ==> dateOf(i) != dateOf(j)
  }

  /** Every report entry is one requested date mapped to the rates its
      fetch produced, and the entries follow the order in which their dates
      were requested: `idx[k]` is the day offset of the k-th entry. */
  lemma ReportEntriesAreRequested<V>(fetcher: ExchangeRateFetcher, dateOf: nat -> DateKey,
                                     respond: DateKey -> Response<V>) returns (idx: seq<nat>)
    ensures var report := GetExchangeRates(fetcher, dateOf, respond);
            && |idx| == |report|
            && (forall k :: 0 <= k < |idx| ==>
                  && idx[k] < fetcher.days
                  && FetchOne(respond(dateOf(idx[k]))).Success?
                  && report[k] == map[dateOf(idx[k]) := FetchOne(respond(dateOf(idx[k]))).value])
            && (forall k, l :: 0 <= k < l < |idx| ==> idx[k] < idx[l])
  {
    var results := Gather(RequestedDates(fetcher.days, dateOf), respond);
    idx := KeepNonEmptySelects(results);
    forall k | 0 <= k < |idx|
      ensures FetchOne(respond(dateOf(idx[k]))).Success?
    {
      assert |results[idx[k]]| > 0;
    }
  }

  /** Every date whose fetch succeeded appears in the report. */
  lemma SuccessfulFetchesAppear<V>(fetcher: ExchangeRateFetcher, dateOf: nat -> DateKey,
                                          respond: DateKey -> Response<V>)
    ensures var report := GetExchangeRates(fetcher, dateOf, respond);
            forall i: nat :: i < fetcher.days && FetchOne(respond(dateOf(i))).Success? ==>
              map[dateOf(i) := FetchOne(respond(dateOf(i))).value] in report
  {
    var dates := RequestedDates(fetcher.days, dateOf);
    var results := Gather(dates, respond);
    var idx := KeepNonEmptySelects(results);
    var report := GetExchangeRates(fetcher, dateOf, respond);
    forall i: nat | i < fetcher.days && FetchOne(respond(dateOf(i))).Success?
      ensures map[dateOf(i) := FetchOne(respond(dateOf(i))).value] in report
    {
      assert dateOf(i) in results[i];
      var k :| 0 <= k < |idx| && idx[k] == i;
      assert report[k] == results[i];
    }
  }

  /** With distinct requested dates, no date appears twice in the report. */
  lemma ReportDatesDistinct<V>(fetcher: ExchangeRateFetcher, dateOf: nat -> DateKey,
                               respond: DateKey -> Response<V>)
    requires DistinctDates(fetcher.days, dateOf)
    ensures var report := GetExchangeRates(fetcher, dateOf, respond);
            forall k, l :: 0 <= k < l < |report| ==> report[k].Keys !! report[l].Keys
  {
    var dates := RequestedDates(fetcher.days, dateOf);
    var results := Gather(dates, respond);
    var idx := KeepNonEmptySelects(results);
    var report := GetExchangeRates(fetcher, dateOf, respond);
    forall k, l | 0 <= k < l < |report|
      ensures report[k].Keys !! report[l].Keys
    {
      assert idx[k] < idx[l];
      assert report[k].Keys <= {dateOf(idx[k])};
      assert report[l].Keys <= {dateOf(idx[l])};
    }
  }

  /** The filter leaves a list with no empty result unchanged. */
  lemma {:induction false} KeepNonEmptyAllKept<V>(results: seq<DayResult<V>>)
    requires forall i :: 0 <= i < |results| ==> |results[i]| > 0
    ensures KeepNonEmpty(results) == results
  {
    if |results| > 0 {
      KeepNonEmptyAllKept(results[1..]);
    }
  }

  /** When every fetch succeeds the report is every day's result, in order. */
  lemma AllSucceedFullReport<V>(fetcher: ExchangeRateFetcher, dateOf: nat -> DateKey,
                                respond: DateKey -> Response<V>)
    requires forall i: nat :: i < fetcher.days ==> FetchOne(respond(dateOf(i))).Success?
    ensures var report := GetExchangeRates(fetcher, dateOf, respond);
            && |report| == (if fetcher.days > 0 then fetcher.days else 0)
            && forall k :: 0 <= k < |report| ==> report[k] == map[dateOf(k) := FetchOne(respond(dateOf(k))).value]
  {
    var dates := RequestedDates(fetcher.days, dateOf);
    var results := Gather(dates, respond);
    forall i | 0 <= i < |results|
      ensures |results[i]| > 0
    {
      assert dateOf(i) in results[i];
    }
    KeepNonEmptyAllKept(results);
  }
}
