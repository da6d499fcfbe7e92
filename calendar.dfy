/** The proleptic Gregorian calendar: valid dates, their order, the next day,
    the day of the week and the `YYYY-MM-DD` text form. */
module Calendar {
  import opened Wrappers
  import opened Text

  datatype Date = Date(year: int, month: int, day: int)

  predicate IsLeapYear(y: int) { y % 4 == 0 && (y % 100 != 0 || y % 400 == 0) }

  function DaysInMonth(y: int, m: int): (n: int)
    requires 1 <= m <= 12
    ensures 28 <= n <= 31
  {
    if m == 2 then (if IsLeapYear(y) then 29 else 28)
    else if m == 4 || m == 6 || m == 9 || m == 11 then 30
    else 31
  }

  /** A real calendar date. */
  predicate IsValid(d: Date)
  {
    1 <= d.month <= 12 && 1 <= d.day <= DaysInMonth(d.year, d.month)
  }

  /** Chronological order. */
  predicate Before(a: Date, b: Date)
  {
    a.year < b.year
    || (a.year == b.year && (a.month < b.month || (a.month == b.month && a.day < b.day)))
  }

  function NextDay(d: Date): (n: Date)
    requires IsValid(d)
    ensures IsValid(n) && Before(d, n)
  {
    if d.day < DaysInMonth(d.year, d.month) then d.(day := d.day + 1)
    else if d.month < 12 then Date(d.year, d.month + 1, 1)
    else Date(d.year + 1, 1, 1)
  }

  /** No valid date lies strictly between a date and the next one. */
  lemma NextDayIsImmediate(d: Date, e: Date)
    requires IsValid(d) && IsValid(e) && Before(d, e)
    ensures NextDay(d) == e || Before(NextDay(d), e)
  {
  }

  /** The date n days after d. */
  function AddDays(d: Date, n: nat): (r: Date)
    requires IsValid(d)
    ensures IsValid(r)
  {
    if n == 0 then d else NextDay(AddDays(d, n - 1))
  }

  /** Counting a + b days is counting a days, then b more. */
  lemma {:induction false} AddDaysSplit(d: Date, a: nat, b: nat)
    requires IsValid(d)
    ensures AddDays(d, a + b) == AddDays(AddDays(d, a), b)
  {
    if b > 0 { AddDaysSplit(d, a, b - 1); }
  }

  /** Within a month, k days after the first is day k + 1. */
  lemma {:induction false} AddDaysInMonth(y: int, m: int, k: nat)
    requires 1 <= m <= 12 && k < DaysInMonth(y, m)
    ensures AddDays(Date(y, m, 1), k) == Date(y, m, k + 1)
  {
    if k > 0 { AddDaysInMonth(y, m, k - 1); }
  }

  /** Sakamoto's month offsets. */
  function MonthOffset(m: int): int
    requires 1 <= m <= 12
  {
    [0, 3, 2, 5, 0, 3, 5, 1, 4, 6, 2, 4][m - 1]
  }

  /** The weekday count of the years before a (shifted) year y. */
  function YearTerm(y: int): int
  {
    y + y / 4 - y / 100 + y / 400
  }

  /** The sum whose remainder modulo 7 is the day of the week; January and
      February count as months of the previous year. */
  function WeekdaySum(d: Date): int
    requires 1 <= d.month <= 12
  {
    YearTerm(if d.month < 3 then d.year - 1 else d.year) + MonthOffset(d.month) + d.day
  }

  /** `getDay()`: the day of the week, Sunday = 0 ... Saturday = 6. */
  function Weekday(d: Date): (w: int)
    requires 1 <= d.month <= 12
    ensures 0 <= w < 7
  {
    WeekdaySum(d) % 7
  }

  /** Going from y - 1 to y, the year term grows by one more in a leap year. */
  lemma YearTermStep(y: int)
    ensures YearTerm(y) == YearTerm(y - 1) + (if IsLeapYear(y) then 2 else 1)
  {
    DivStep4(y);
    DivStep100(y);
    DivStep400(y);
    DivisorsNest(y);
    var a, b, e := y / 4 - (y - 1) / 4, y / 100 - (y - 1) / 100, y / 400 - (y - 1) / 400;
    assert YearTerm(y) - YearTerm(y - 1) == 1 + a - b + e;
  }

  /** A multiple of 400 is a multiple of 100, and a multiple of 100 one of 4. */
  lemma DivisorsNest(y: int)
    ensures y % 400 == 0 ==> y % 100 == 0
    ensures y % 100 == 0 ==> y % 4 == 0
  {
    if y % 400 == 0 {
      var q := y / 400;
      assert y == 100 * (4 * q);
    }
    if y % 100 == 0 {
      var q := y / 100;
      assert y == 4 * (25 * q);
    }
  }

  /** Going from y - 1 to y, y / k grows by one exactly when k divides y. */
  lemma DivStep4(y: int)
    ensures y / 4 - (y - 1) / 4 == if y % 4 == 0 then 1 else 0
  {
    var q, r := y / 4, y % 4;
    if r == 0 {
      assert y - 1 == 4 * (q - 1) + 3;
    } else {
      assert y - 1 == 4 * q + (r - 1);
    }
  }

  lemma DivStep100(y: int)
    ensures y / 100 - (y - 1) / 100 == if y % 100 == 0 then 1 else 0
  {
    var q, r := y / 100, y % 100;
    if r == 0 {
      assert y - 1 == 100 * (q - 1) + 99;
    } else {
      assert y - 1 == 100 * q + (r - 1);
    }
  }

  lemma DivStep400(y: int)
    ensures y / 400 - (y - 1) / 400 == if y % 400 == 0 then 1 else 0
  {
    var q, r := y / 400, y % 400;
    if r == 0 {
      assert y - 1 == 400 * (q - 1) + 399;
    } else {
      assert y - 1 == 400 * q + (r - 1);
    }
  }

  lemma ModStep(e: int, c: int)
    ensures (e + 1 - 7 * c) % 7 == (e % 7 + 1) % 7
  {
  }

  /** The sum of the next day exceeds the sum of the day by one, modulo 7. */
  lemma WeekdaySumOfNextDay(d: Date)
    requires IsValid(d)
    ensures exists c :: WeekdaySum(NextDay(d)) == WeekdaySum(d) + 1 - 7 * c
  {
    var e, f := WeekdaySum(d), WeekdaySum(NextDay(d));
    if d.day < DaysInMonth(d.year, d.month) {
      assert f == e + 1 - 7 * 0;
    } else if d.month == 2 {
      YearTermStep(d.year);
      assert f == e + 1 - 7 * 4;
    } else if d.month < 12 {
      var c := if d.month == 4 || d.month == 7 || d.month == 10 then 5 else 4;
      assert f == e + 1 - 7 * c;
    } else {
      assert f == e + 1 - 7 * 5;
    }
  }

  /** Consecutive days have consecutive weekdays. Together with one known
      weekday this fixes the weekday of every date. */
  lemma WeekdayOfNextDay(d: Date)
    requires IsValid(d)
    ensures Weekday(NextDay(d)) == (Weekday(d) + 1) % 7
  {
    WeekdaySumOfNextDay(d);
    var c :| WeekdaySum(NextDay(d)) == WeekdaySum(d) + 1 - 7 * c;
    ModStep(WeekdaySum(d), c);
  }

  /** 1 January 1970 was a Thursday and 2 July 2024 a Tuesday. */
  lemma KnownWeekdays()
    ensures Weekday(Date(1970, 1, 1)) == 4
    ensures Weekday(Date(2024, 7, 2)) == 2
  {
  }

  // ---------------------------------------------------------------------------
  // The `YYYY-MM-DD` text form

  predicate IsIsoShape(s: string)
  {
    |s| == 10 && s[4] == '-' && s[7] == '-'
    && IsDigits(s[..4]) && IsDigits(s[5..7]) && IsDigits(s[8..])
  }

  /** The date a `YYYY-MM-DD` text names, when it names a real one. */
  function ParseIsoDate(s: string): (r: Option<Date>)
    ensures r.Some? ==> IsValid(r.value) && 0 <= r.value.year <= 9999
  {
    if IsIsoShape(s) then
      DigitsValueBound(s[..4]);
      var d := Date(DigitsValue(s[..4]), DigitsValue(s[5..7]), DigitsValue(s[8..]));
      if IsValid(d) then Some(d) else None
    else None
  }

  /** A year of four digits, a month and a day of two, joined by dashes. */
  lemma IsoDateText(y: string, m: string, d: string)
    requires |y| == 4 && |m| == 2 && |d| == 2 && IsDigits(y) && IsDigits(m) && IsDigits(d)
    requires IsValid(Date(DigitsValue(y), DigitsValue(m), DigitsValue(d)))
    ensures ParseIsoDate(y + "-" + m + "-" + d) == Some(Date(DigitsValue(y), DigitsValue(m), DigitsValue(d)))
  {
    var s := y + "-" + m + "-" + d;
    assert |s| == 10 && s[4] == '-' && s[7] == '-';
    assert s[..4] == y && s[5..7] == m && s[8..] == d;
    assert IsIsoShape(s);
  }

  lemma {:induction false} DigitsValueBound(s: string)
    requires IsDigits(s)
    ensures |s| == 1 ==> DigitsValue(s) <= 9
    ensures |s| == 2 ==> DigitsValue(s) <= 99
    ensures |s| == 3 ==> DigitsValue(s) <= 999
    ensures |s| == 4 ==> DigitsValue(s) <= 9999
  {
    if |s| > 0 { DigitsValueBound(s[..|s| - 1]); }
  }

  /** On `YYYY-MM-DD` texts, string order is chronological order and equal
      texts are equal dates: this is what makes the text comparison of a
      reservation date with today's date meaningful. */
  lemma IsoOrderIsChronological(a: string, b: string)
    requires ParseIsoDate(a).Some? && ParseIsoDate(b).Some?
    ensures LexLess(a, b) <==> Before(ParseIsoDate(a).value, ParseIsoDate(b).value)
    ensures a == b <==> ParseIsoDate(a) == ParseIsoDate(b)
  {
    assert a == a[..4] + a[4..] && b == b[..4] + b[4..];
    assert a[4..] == [a[4]] + a[5..] && b[4..] == [b[4]] + b[5..];
    assert a[5..] == a[5..7] + a[7..] && b[5..] == b[5..7] + b[7..];
    assert a[7..] == [a[7]] + a[8..] && b[7..] == [b[7]] + b[8..];
    LexLessConcat(a[..4], a[4..], b[..4], b[4..]);
    LexLessConcat([a[4]], a[5..], [b[4]], b[5..]);
    LexLessConcat(a[5..7], a[7..], b[5..7], b[7..]);
    LexLessConcat([a[7]], a[8..], [b[7]], b[8..]);
    LexLessIrreflexive([a[4]]);
    LexLessIrreflexive([a[7]]);
    LexLessDigits(a[..4], b[..4]);
    LexLessDigits(a[5..7], b[5..7]);
    LexLessDigits(a[8..], b[8..]);
    if ParseIsoDate(a) == ParseIsoDate(b) {
      assert a[..4] == b[..4] && a[5..7] == b[5..7] && a[8..] == b[8..];
    }
  }
}
