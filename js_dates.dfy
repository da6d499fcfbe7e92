/** The two ways the controller turns text into a JavaScript `Date`:
    `Date.parse(text)` (date-only ISO text, read as UTC midnight) and
    `new Date(`${month} ${day}, ${year}`)` (the legacy parser, local time). */
module JsDates {
  import opened Wrappers
  import opened Text
  import opened JsValues
  import opened Calendar

  /** A `Date` object: a calendar day, or an Invalid Date (whose `getDay()` is NaN). */
  datatype JsDate = InvalidDate | ValidDate(date: Date)

  /** V8 checks only that a month is 1..12 and a day 1..31; a day past the
      end of its month counts on into the next one ("2023-02-30" is 2 March). */
  function RollOver(y: int, m: int, d: int): (r: Date)
    requires 1 <= m <= 12 && 1 <= d <= 31
    ensures IsValid(r)
    ensures IsValid(Date(y, m, d)) ==> r == Date(y, m, d)
  {
    var n := DaysInMonth(y, m);
    if d <= n then Date(y, m, d)
    else if m < 12 then Date(y, m + 1, d - n)
    else Date(y + 1, 1, d - n)
  }

  /** Rolling over is counting: day d of a month is d - 1 days after its first. */
  lemma RollOverCountsDays(y: int, m: int, d: int)
    requires 1 <= m <= 12 && 1 <= d <= 31
    ensures RollOver(y, m, d) == AddDays(Date(y, m, 1), d - 1)
  {
    var n := DaysInMonth(y, m);
    if d <= n {
      AddDaysInMonth(y, m, d - 1);
    } else {
      AddDaysInMonth(y, m, n - 1);
      AddDaysSplit(Date(y, m, 1), n - 1, d - n);
      AddDaysSplit(Date(y, m, n), 1, d - n - 1);
      var first := if m < 12 then Date(y, m + 1, 1) else Date(y + 1, 1, 1);
      assert AddDays(Date(y, m, n), 1) == first;
      AddDaysInMonth(first.year, first.month, d - n - 1);
    }
  }

  /** The day `Date.parse` reads from a `YYYY-MM-DD` text, if it reads one. */
  function IsoDay(s: string): (r: Option<Date>)
    ensures r.Some? ==> IsIsoShape(s) && IsValid(r.value)
    ensures ParseIsoDate(s).Some? ==> r == ParseIsoDate(s)
  {
    if IsIsoShape(s) then
      var y, m, d := DigitsValue(s[..4]), DigitsValue(s[5..7]), DigitsValue(s[8..]);
      if 1 <= m <= 12 && 1 <= d <= 31 then Some(RollOver(y, m, d)) else None
    else None
  }

  /** `isNaN(Date.parse(v))`: only `YYYY-MM-DD` text with a month of 1..12 and
      a day of 1..31 is parseable in this model. */
  predicate DateParseIsNaN(v: Value)
  {
    !(v.Str? && IsoDay(v.s).Some?)
  }

  /** `!!Date.parse(v)`: the time value is neither NaN nor 0. A date-only text
      denotes UTC midnight of that day, so the value is 0 for 1970-01-01 alone. */
  predicate DateParseIsTruthy(v: Value)
  {
    !DateParseIsNaN(v) && v.s != "1970-01-01"
  }

  /** "2023-02-29" is no real date, yet `Date.parse` reads it as 1 March and
      `isValidReservation` lets it through. */
  lemma LateDayRollsOver()
    ensures ParseIsoDate("2023-02-29").None?
    ensures IsoDay("2023-02-29") == Some(Date(2023, 3, 1))
    ensures DateParseIsTruthy(Str("2023-02-29"))
  {
    var s := "2023-02-29";
    var y, m, d := s[..4], s[5..7], s[8..];
    assert y == "2023" && m == "02" && d == "29";
    DigitsValueShort(y);
    DigitsValueShort(m);
    DigitsValueShort(d);
    assert IsIsoShape(s);
  }

  /** `new Date(`${month} ${day}, ${year}`)` built from the pieces
      `[year, month, day]` of `reservation_date.split("-")`; the legacy parser
      rolls a late day over just as `Date.parse` does. */
  function LegacyDate(parts: seq<string>): JsDate
  {
    if |parts| >= 3
       && |parts[0]| > 0 && |parts[1]| > 0 && |parts[2]| > 0
       && IsDigits(parts[0]) && IsDigits(parts[1]) && IsDigits(parts[2])
    then
      var y, m, d := DigitsValue(parts[0]), DigitsValue(parts[1]), DigitsValue(parts[2]);
      if 1 <= m <= 12 && 1 <= d <= 31 then ValidDate(RollOver(y, m, d)) else InvalidDate
    else InvalidDate
  }

  /** A `YYYY-MM-DD` text splits on "-" into year, month and day, and the
      legacy parser reads those pieces back as the day `Date.parse` reads. */
  lemma {:induction false} IsoDateSplit(s: string)
    requires IsoDay(s).Some?
    ensures Split(s, '-') == [s[..4], s[5..7], s[8..]]
    ensures LegacyDate(Split(s, '-')) == ValidDate(IsoDay(s).value)
  {
    var y, m, d := s[..4], s[5..7], s[8..];
    assert '-' !in y && '-' !in m && '-' !in d by {
      assert forall i :: 0 <= i < |y| ==> IsDigit(y[i]);
      assert forall i :: 0 <= i < |m| ==> IsDigit(m[i]);
      assert forall i :: 0 <= i < |d| ==> IsDigit(d[i]);
    }
    assert s == y + ['-'] + (m + ['-'] + d);
    SplitAtSeparator(y, '-', m + ['-'] + d);
    SplitAtSeparator(m, '-', d);
    SplitNoSeparator(d, '-');
  }
}
