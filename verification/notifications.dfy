/**
 * The notification time the frontend reads back from storage
 * (`getSavedTime`): each part defaulted, converted with `Number`, and
 * clamped to a valid clock time.
 */
module Notifications {
  import opened Wrappers
  import opened Strings
  import opened Numerals
  import opened LocalStorage

  const HourKey: string := "makumark_notif_hour"
  const MinuteKey: string := "makumark_notif_minute"
  const DefaultHour: nat := 9
  const DefaultMinute: nat := 0

  /** A JavaScript number: finite, an infinity, or `NaN`. */
  datatype JsNumber = Finite(v: real) | PosInfinity | NegInfinity | NaN

  function Pow10(k: nat): (p: nat)
    ensures p >= 1
  {
    if k == 0 then 1 else 10 * Pow10(k - 1)
  }

  /** An unsigned decimal literal: digits with at most one '.', and at least one digit. */
  function UnsignedDecimal(body: string): Option<real> {
    if body != "" && AllDigits(body) then Some(DigitsValue(body) as real)
    else if '.' in body then
      var i := IndexOfChar(body, '.');
      var whole := body[..i];
      var frac := body[i + 1..];
      if AllDigits(whole) && AllDigits(frac) && |whole| + |frac| > 0 then
        Some(DigitsValue(whole) as real + DigitsValue(frac) as real / Pow10(|frac|) as real)
      else None
    else None
  }

  /**
   * `Number(s)` for a string: surrounding white space is ignored, the empty
   * string is 0, then one optional sign and a decimal literal or
   * "Infinity"; anything else is `NaN`.
   */
  function ToNumber(s: string): JsNumber {
    var t := Strip(s, IsJsSpace);
    if t == "" then Finite(0.0)
    else
      var negative := t[0] == '-';
      var body := if t[0] == '-' || t[0] == '+' then t[1..] else t;
      if body == "Infinity" then (if negative then NegInfinity else PosInfinity)
      else match UnsignedDecimal(body)
        case Some(v) => Finite(if negative then -v else v)
        case None => NaN
  }

  /** What `String(n)` writes for a whole number reads back as that number. */
  lemma ToNumberOfDecimal(n: nat)
    ensures ToNumber(Decimal(n)) == Finite(n as real)
  {
    var s := Decimal(n);
    assert IsDigit(s[0]) && IsDigit(s[|s| - 1]);
    TrimStartOfClean(s, IsJsSpace);
    TrimEndOfClean(s, IsJsSpace);
    assert Strip(s, IsJsSpace) == s;
    assert s != "Infinity" by {
      assert s[0] != 'I';
    }
    DigitsValueOfDecimal(n);
    assert UnsignedDecimal(s) == Some(n as real);
  }

  /** `Math.min(hi, Math.max(0, x || 0))`: falsy values (0 and `NaN`) become 0. */
  function Clamp(x: JsNumber, hi: nat): (r: real)
    ensures 0.0 <= r <= hi as real
    ensures x.NaN? ==> r == 0.0
    ensures x.Finite? && 0.0 <= x.v <= hi as real ==> r == x.v
    ensures x.Finite? && x.v > hi as real ==> r == hi as real
    ensures x.Finite? && x.v < 0.0 ==> r == 0.0
    ensures x.PosInfinity? ==> r == hi as real
    ensures x.NegInfinity? ==> r == 0.0
  {
    match x
    case NaN => 0.0
    case NegInfinity => 0.0
    case PosInfinity => hi as real
    case Finite(v) => if v < 0.0 then 0.0 else if v > hi as real then hi as real else v
  }

  /** A finite number already in `[0, hi]`. */
  predicate InRange(x: JsNumber, hi: nat) {
    x.Finite? && 0.0 <= x.v <= hi as real
  }

  /** `Number(localStorage.getItem(key) ?? fallback)`. */
  function Stored(s: Storage, key: string, fallback: nat): JsNumber {
    match GetItem(s, key)
    case None => Finite(fallback as real)
    case Some(text) => ToNumber(text)
  }

  datatype ClockTime = ClockTime(hour: real, minute: real)

  /** `getSavedTime`. */
  function SavedTime(s: Storage): (t: ClockTime)
    ensures 0.0 <= t.hour <= 23.0 && 0.0 <= t.minute <= 59.0
    ensures HourKey !in s ==> t.hour == DefaultHour as real
    ensures MinuteKey !in s ==> t.minute == DefaultMinute as real
    ensures HourKey in s && ToNumber(s[HourKey]).NaN? ==> t.hour == 0.0
    ensures MinuteKey in s && ToNumber(s[MinuteKey]).NaN? ==> t.minute == 0.0
    ensures HourKey in s && InRange(ToNumber(s[HourKey]), 23) ==> t.hour == ToNumber(s[HourKey]).v
    ensures MinuteKey in s && InRange(ToNumber(s[MinuteKey]), 59) ==> t.minute == ToNumber(s[MinuteKey]).v
  {
    ClockTime(Clamp(Stored(s, HourKey, DefaultHour), 23), Clamp(Stored(s, MinuteKey, DefaultMinute), 59))
  }

  /** With nothing stored the time is 09:00. */
  lemma SavedTimeDefault()
    ensures SavedTime(map[]) == ClockTime(9.0, 0.0)
  {
  }

  /** A valid time written as `String(hour)` and `String(minute)` is read back unchanged. */
  lemma SavedTimeRoundTrip(s: Storage, hour: nat, minute: nat)
    requires hour <= 23 && minute <= 59
    ensures SavedTime(s[HourKey := Decimal(hour)][MinuteKey := Decimal(minute)])
      == ClockTime(hour as real, minute as real)
  {
    var h, m := Decimal(hour), Decimal(minute);
    var s' := s[HourKey := h][MinuteKey := m];
    ToNumberOfDecimal(hour);
    ToNumberOfDecimal(minute);
    StoredKeys(s, h, m);
    SavedTimeOfNumbers(s', hour as real, minute as real);
  }

  lemma StoredKeys(s: Storage, h: string, m: string)
    ensures var s' := s[HourKey := h][MinuteKey := m];
      HourKey in s' && MinuteKey in s' && s'[HourKey] == h && s'[MinuteKey] == m
  {
    assert HourKey[15] != MinuteKey[15];
  }

  /** Stored numbers already in range are read back unchanged. */
  lemma SavedTimeOfNumbers(s: Storage, hour: real, minute: real)
    requires HourKey in s && ToNumber(s[HourKey]) == Finite(hour) && 0.0 <= hour <= 23.0
    requires MinuteKey in s && ToNumber(s[MinuteKey]) == Finite(minute) && 0.0 <= minute <= 59.0
    ensures SavedTime(s) == ClockTime(hour, minute)
  {
  }

  /** A value that is not a number, such as "abc", reads as 0. */
  lemma NonNumericReadsAsZero(s: Storage)
    requires HourKey in s && s[HourKey] == "abc"
    ensures SavedTime(s).hour == 0.0
  {
    assert '.' !in "abc";
    assert !IsJsSpace('a') && !IsJsSpace('c');
    TrimStartOfClean("abc", IsJsSpace);
    TrimEndOfClean("abc", IsJsSpace);
  }
}
