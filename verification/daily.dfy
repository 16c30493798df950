/**
 * The frontend's daily refresh: the local `YYYY-MM-DD` stamp and the
 * day-change detection that restamps storage and reschedules the
 * notification.
 */
module Daily {
  import opened Wrappers
  import opened Numerals
  import opened LocalStorage
  import opened ApiClient

  const LastQuoteDateKey: string := "makumark_last_quote_date"
  const NotifEnabledKey: string := "makumark_notif_enabled"

  /** The local fields of a JavaScript `Date`: `getFullYear()`, `getMonth()` (0-based), `getDate()`. */
  datatype LocalDate = LocalDate(year: int, month0: int, day: int)

  predicate ValidLocalDate(d: LocalDate) {
    0 <= d.month0 <= 11 && 1 <= d.day <= 31
  }

  /** `String(year)`. */
  function YearString(year: int): (s: string)
    ensures |s| >= 1
    ensures year >= 0 ==> AllDigits(s)
    ensures s[0] == '-' <==> year < 0
  {
    if year >= 0 then Decimal(year) else "-" + Decimal(-year)
  }

  /** `formatDateLocal`: the year, then the 1-based month and the day, each as two digits, joined by '-'. */
  function FormatDateLocal(d: LocalDate): (r: string)
    requires ValidLocalDate(d)
    ensures |r| == |YearString(d.year)| + 6
    ensures r[..|r| - 6] == YearString(d.year)
    ensures r[|r| - 6] == '-' && r[|r| - 3] == '-'
    ensures r[|r| - 5..|r| - 3] == TwoDigits(d.month0 + 1)
    ensures r[|r| - 2..] == TwoDigits(d.day)
  {
    var y := YearString(d.year);
    var m := TwoDigits(d.month0 + 1);
    var dd := TwoDigits(d.day);
    StampParts(y, m, dd);
    y + "-" + m + "-" + dd
  }

  lemma StampParts(y: string, m: string, dd: string)
    requires |m| == 2 && |dd| == 2
    ensures var r := y + "-" + m + "-" + dd;
      && |r| == |y| + 6
      && r[..|r| - 6] == y
      && r[|r| - 6] == '-' && r[|r| - 3] == '-'
      && r[|r| - 5..|r| - 3] == m
      && r[|r| - 2..] == dd
  {
  }

  /** Reads a year written by `YearString`. */
  function ParseYear(y: string): Option<int> {
    if |y| > 0 && AllDigits(y) then Some(DigitsValue(y))
    else if |y| > 1 && y[0] == '-' && AllDigits(y[1..]) then Some(-(DigitsValue(y[1..]) as int))
    else None
  }

  lemma ParseYearString(year: int)
    ensures ParseYear(YearString(year)) == Some(year)
  {
    if year >= 0 {
      DigitsValueOfDecimal(year);
    } else {
      ParseNegativeYear(year);
    }
  }

  /** A negative year reads back through the '-' branch of `ParseYear`. */
  lemma ParseNegativeYear(year: int)
    requires year < 0
    ensures ParseYear(YearString(year)) == Some(year)
  {
    var n: nat := -year;
    var d := Decimal(n);
    assert YearString(year) == "-" + d;
    DigitsValueOfDecimal(n);
    ParseMinusDigits(d);
  }

  /** '-' followed by digits reads as the negated value of the digits. */
  lemma ParseMinusDigits(d: string)
    requires |d| >= 1 && AllDigits(d)
    ensures ParseYear("-" + d) == Some(-(DigitsValue(d) as int))
  {
    var y := "-" + d;
    assert !IsDigit(y[0]);
    assert y[1..] == d;
  }

  /** Reads a stamp back into local date fields; `None` for a string of another shape. */
  function ParseStamp(r: string): Option<LocalDate> {
    if |r| < 7 || r[|r| - 6] != '-' || r[|r| - 3] != '-' then None
    else
      var month := r[|r| - 5..|r| - 3];
      var day := r[|r| - 2..];
      if !AllDigits(month) || !AllDigits(day) then None
      else match ParseYear(r[..|r| - 6])
        case None => None
        case Some(year) => Some(LocalDate(year, DigitsValue(month) - 1, DigitsValue(day)))
  }

  /** Reading a stamp back gives the date it was written from. */
  lemma StampRoundTrip(d: LocalDate)
    requires ValidLocalDate(d)
    ensures ParseStamp(FormatDateLocal(d)) == Some(d)
  {
    ParseYearString(d.year);
  }

  /** Different local dates give different stamps, so comparing stamps compares dates. */
  lemma FormatDateLocalInjective(a: LocalDate, b: LocalDate)
    requires ValidLocalDate(a) && ValidLocalDate(b)
    ensures FormatDateLocal(a) == FormatDateLocal(b) ==> a == b
  {
    StampRoundTrip(a);
    StampRoundTrip(b);
  }

  /** A stamp never collides with the key suffix of today's cached quote. */
  lemma StampCacheKeyIsNotToday(d: LocalDate)
    requires ValidLocalDate(d)
    ensures DateCacheKey(FormatDateLocal(d)) != TodayCacheKey
  {
    var r := FormatDateLocal(d);
    assert r[0] == YearString(d.year)[0];
    assert DateCacheKey(r)[|DateCachePrefix|] == r[0];
  }

  /** The result of `refreshDailyState`, with whether it rescheduled and the storage afterwards. */
  datatype DailyState<D> = DailyState(quote: Option<D>, dayChanged: bool, rescheduled: bool, storage: Storage)

  /**
   * The part of `refreshDailyState` after the fetch: when the stored stamp
   * is not today's, restamp and reschedule if notifications are enabled.
   */
  function StampDay<D>(before: Storage, fetched: Storage, quote: Option<D>, todayStr: string): (r: DailyState<D>)
    requires GetItem(fetched, LastQuoteDateKey) == GetItem(before, LastQuoteDateKey)
    requires GetItem(fetched, NotifEnabledKey) == GetItem(before, NotifEnabledKey)
    ensures r.quote == quote
    ensures r.dayChanged <==> GetItem(before, LastQuoteDateKey) != Some(todayStr)
    ensures GetItem(r.storage, LastQuoteDateKey) == Some(todayStr)
    ensures r.dayChanged ==> r.storage == fetched[LastQuoteDateKey := todayStr]
    ensures !r.dayChanged ==> r.storage == fetched
    ensures r.rescheduled <==> r.dayChanged && GetItem(before, NotifEnabledKey) == Some("true")
  {
    var dayChanged := GetItem(before, LastQuoteDateKey) != Some(todayStr);
    if dayChanged then
      var s' := SetItem(fetched, LastQuoteDateKey, todayStr);
      DailyState(quote, true, GetItem(s', NotifEnabledKey) == Some("true"), s')
    else
      DailyState(quote, false, false, fetched)
  }

  /** `fetchTodayQuote` writes only the client id and the cache, never the stamp or the flag. */
  lemma FetchKeepsDailyKeys<D>(s: Storage, freshId: string, net: Net<D>, publishDate: D -> string,
                               nowIso: string, encode: CacheEntry<D> -> string, decode: string -> Option<CacheEntry<D>>)
    requires freshId != ""
    ensures var c := FetchTodayQuote(s, freshId, net, publishDate, nowIso, encode, decode);
      GetItem(c.storage, LastQuoteDateKey) == GetItem(s, LastQuoteDateKey)
      && GetItem(c.storage, NotifEnabledKey) == GetItem(s, NotifEnabledKey)
  {
    var (params, s1) := Identify(s, map[], freshId);
    assert GetItem(s1, LastQuoteDateKey) == GetItem(s, LastQuoteDateKey);
    assert GetItem(s1, NotifEnabledKey) == GetItem(s, NotifEnabledKey);
  }

  /**
   * `refreshDailyState`: fetch today's quote (a failure leaves `quote`
   * empty), then `StampDay`.
   */
  function RefreshDailyState<D>(s: Storage, today: LocalDate, freshId: string, net: Net<D>, publishDate: D -> string,
                                nowIso: string, encode: CacheEntry<D> -> string, decode: string -> Option<CacheEntry<D>>)
    : (r: DailyState<D>)
    requires ValidLocalDate(today) && freshId != ""
    ensures r.dayChanged <==> GetItem(s, LastQuoteDateKey) != Some(FormatDateLocal(today))
    ensures GetItem(r.storage, LastQuoteDateKey) == Some(FormatDateLocal(today))
    ensures r.rescheduled <==> r.dayChanged && GetItem(s, NotifEnabledKey) == Some("true")
    ensures r.quote.Some? <==> FetchTodayQuote(s, freshId, net, publishDate, nowIso, encode, decode).answer.Returned?
    ensures r.quote.Some? ==> r.quote.value == FetchTodayQuote(s, freshId, net, publishDate, nowIso, encode, decode).answer.data
  {
    var call := FetchTodayQuote(s, freshId, net, publishDate, nowIso, encode, decode);
    FetchKeepsDailyKeys(s, freshId, net, publishDate, nowIso, encode, decode);
    StampDay(s, call.storage, if call.answer.Returned? then Some(call.answer.data) else None, FormatDateLocal(today))
  }

  /** A failed fetch with nothing cached still restamps the day. */
  lemma FailedFetchStillStamps<D>(s: Storage, today: LocalDate, freshId: string, error: string, publishDate: D -> string,
                                  nowIso: string, encode: CacheEntry<D> -> string, decode: string -> Option<CacheEntry<D>>)
    requires ValidLocalDate(today) && freshId != ""
    requires TodayCacheKey !in s
    ensures var r := RefreshDailyState(s, today, freshId, Err(error), publishDate, nowIso, encode, decode);
      r.quote.None? && GetItem(r.storage, LastQuoteDateKey) == Some(FormatDateLocal(today))
  {
  }

  /** A second refresh on the same day sees no day change and reschedules nothing, whatever the network does. */
  lemma SecondRefreshSameDay<D>(s: Storage, today: LocalDate, freshId: string, net: Net<D>, net': Net<D>,
                                publishDate: D -> string, nowIso: string, nowIso': string,
                                encode: CacheEntry<D> -> string, decode: string -> Option<CacheEntry<D>>)
    requires ValidLocalDate(today) && freshId != ""
    ensures var r1 := RefreshDailyState(s, today, freshId, net, publishDate, nowIso, encode, decode);
      var r2 := RefreshDailyState(r1.storage, today, freshId, net', publishDate, nowIso', encode, decode);
      !r2.dayChanged && !r2.rescheduled
  {
  }
}
