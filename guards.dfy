/** The business-rule middleware of the reservations controller: the closed
    day, the "not in the past" check with its date and time helpers, the
    opening hours and the three status guards. Each is a function of the
    request data, `res.locals` and, for the past check, an injected clock. */
module Guards {
  import opened Wrappers
  import opened Text
  import opened JsValues
  import opened Calendar
  import opened JsDates
  import opened Middleware

  // ---------------------------------------------------------------------------
  // The clock and the helpers that read it

  /** The local fields `new Date()` reports: `getFullYear()`, `getMonth() + 1`,
      `getDate()`, `getHours()`, `getMinutes()`, `getSeconds()`. */
  datatype Clock = Clock(year: nat, month: nat, day: nat, hours: nat, minutes: nat, seconds: nat)

  function ClockDate(c: Clock): Date { Date(c.year, c.month, c.day) }

  /** The values a real clock can show. */
  predicate IsRealClock(c: Clock)
  {
    IsValid(ClockDate(c)) && c.hours < 24 && c.minutes < 60 && c.seconds < 60
  }

  /** `asDateString(date)`: the year, then month and day padded to two digits. */
  function AsDateString(c: Clock): string
  {
    NatToString(c.year) + "-" + PadStart2(NatToString(c.month)) + "-" + PadStart2(NatToString(c.day))
  }

  /** `today()` with the clock injected. */
  function Today(c: Clock): string { AsDateString(c) }

  /** Month and day always come out as two digits, whatever the year. */
  lemma AsDateStringPads(c: Clock)
    requires c.month < 100 && c.day < 100
    ensures AsDateString(c) == NatToString(c.year) + "-" + TwoDigits(c.month) + "-" + TwoDigits(c.day)
  {
  }

  /** For a four-digit year, today's text is the `YYYY-MM-DD` form of today. */
  lemma TodayIsIsoDate(c: Clock)
    requires IsRealClock(c) && 1000 <= c.year <= 9999
    ensures ParseIsoDate(Today(c)) == Some(ClockDate(c))
  {
    NatToStringLength(c.year);
    AsDateStringPads(c);
    IsoDateText(NatToString(c.year), TwoDigits(c.month), TwoDigits(c.day));
  }

  /** An `HH:MM` text: two digits, a colon, two digits. */
  predicate IsTimeShape(t: string)
  {
    |t| == 5 && IsDigit(t[0]) && IsDigit(t[1]) && t[2] == ':' && IsDigit(t[3]) && IsDigit(t[4])
  }

  /** Whether an `HH:MM` text starts at index i of s. */
  predicate TimeAt(s: string, i: nat)
  {
    i + 5 <= |s| && IsTimeShape(s[i..i + 5])
  }

  /** The leftmost index at or after `from` where an `HH:MM` text starts. */
  function FindTime(s: string, from: nat): (r: Option<nat>)
    ensures r.Some? ==> from <= r.value && TimeAt(s, r.value)
                        && forall j :: from <= j < r.value ==> !TimeAt(s, j)
    ensures r.None? ==> forall j :: from <= j ==> !TimeAt(s, j)
    decreases |s| - from
  {
    if from + 5 > |s| then None
    else if TimeAt(s, from) then Some(from)
    else FindTime(s, from + 1)
  }

  /** `timeString.match(/\d\d:\d\d/)[0]`: the leftmost match; without one,
      `match` gives `null` and indexing it throws. */
  function FormatAsTime(s: string): (r: Completion<string>)
    ensures r.Normal? ==> IsTimeShape(r.value)
    ensures r.Normal? ==> exists i: nat :: TimeAt(s, i) && r.value == s[i..i + 5]
                                           && forall j: nat :: j < i ==> !TimeAt(s, j)
    ensures r.TypeError? <==> forall i: nat :: !TimeAt(s, i)
  {
    match FindTime(s, 0)
    case Some(i) => Normal(s[i..i + 5])
    case None => TypeError
  }

  /** `rightNow()` with the clock injected: hours and minutes padded with
      `('00' + n).slice(-2)`, then seconds, then the `HH:MM` part picked out. */
  function RightNow(c: Clock): Completion<string>
  {
    var current := LastTwo("00" + NatToString(c.hours)) + ":" + LastTwo("00" + NatToString(c.minutes))
                   + ":" + NatToString(c.seconds);
    FormatAsTime(current)
  }

  /** On a real clock, `rightNow()` is the zero-padded current `HH:MM`. */
  lemma RightNowIsPaddedTime(c: Clock)
    requires c.hours < 100 && c.minutes < 100
    ensures RightNow(c) == Normal(TwoDigits(c.hours) + ":" + TwoDigits(c.minutes))
  {
    LastTwoPadded(c.hours);
    LastTwoPadded(c.minutes);
    var hm := TwoDigits(c.hours) + ":" + TwoDigits(c.minutes);
    var current := hm + ":" + NatToString(c.seconds);
    assert current[0..0 + 5] == hm;
    assert TimeAt(current, 0);
  }

  /** `rightNow()` never throws: its text always starts with two digits, a
      colon and two digits. */
  lemma RightNowNeverThrows(c: Clock)
    ensures RightNow(c).Normal?
  {
    LastTwoDigits(c.hours);
    LastTwoDigits(c.minutes);
    var current := LastTwo("00" + NatToString(c.hours)) + ":" + LastTwo("00" + NatToString(c.minutes))
                   + ":" + NatToString(c.seconds);
    assert TimeAt(current, 0);
  }

  // ---------------------------------------------------------------------------
  // isNotOnTuesday

  const ClosedMessage: string := "Location is closed on Tuesdays"

  /** `isNotOnTuesday`: builds `new Date("MM DD, YYYY")` from the pieces of the
      date, records it in `res.locals.date`, and rejects a Tuesday
      (`getDay() === 2`). An Invalid Date has no weekday and passes. */
  function IsNotOnTuesday(data: Option<Body>, locals: Locals): Outcome<Locals>
  {
    if data.None? then Fail(Thrown)
    else
      var v := Get(data.value, "reservation_date");
      if !v.Str? then Fail(Thrown)
      else
        var date := LegacyDate(Split(v.s, '-'));
        if date.ValidDate? && Weekday(date.date) == 2 then Fail(Rejected(400, ClosedMessage))
        else Pass(locals.(date := Some(date)))
  }

  /** On a `YYYY-MM-DD` date the guard rejects exactly the Tuesdays, and
      otherwise records that date. A late day is judged by the day it rolls
      over to. The time of day plays no part. */
  lemma TuesdayRejected(data: Body, locals: Locals, d: Date)
    requires Get(data, "reservation_date").Str?
    requires IsoDay(Get(data, "reservation_date").s) == Some(d)
    ensures IsNotOnTuesday(Some(data), locals)
         == if Weekday(d) == 2 then Fail(Rejected(400, ClosedMessage))
            else Pass(locals.(date := Some(ValidDate(d))))
  {
    IsoDateSplit(Get(data, "reservation_date").s);
  }

  /** 2 July 2024 is refused, at any time of day. */
  lemma ClosedOnTuesdayExample(data: Body)
    requires Get(data, "reservation_date") == Str("2024-07-02")
    ensures IsNotOnTuesday(Some(data), NoLocals) == Fail(Rejected(400, ClosedMessage))
  {
    var s := "2024-07-02";
    var y, m, d := s[..4], s[5..7], s[8..];
    assert y == "2024" && m == "07" && d == "02";
    DigitsValueShort(y);
    DigitsValueShort(m);
    DigitsValueShort(d);
    assert ParseIsoDate(s) == Some(Date(2024, 7, 2));
    assert IsoDay(s) == Some(Date(2024, 7, 2));
    KnownWeekdays();
    TuesdayRejected(data, NoLocals, Date(2024, 7, 2));
  }

  // ---------------------------------------------------------------------------
  // isInTheFuture

  const PastMessage: string := "Reservation must be set in the future"

  /** `isInTheFuture`: both comparisons are between strings, so they follow
      text order, not time order. */
  function IsInTheFuture(data: Option<Body>, c: Clock): Option<Failure>
  {
    var body := if data.Some? then data.value else map[];
    var date := Get(body, "reservation_date");
    var time := Get(body, "reservation_time");
    if DateParseIsNaN(date) then Some(Rejected(400, "Invalid reservation_date"))
    else if LexLess(date.s, Today(c)) then Some(Rejected(400, PastMessage))
    else if date.s == Today(c) then
      match RightNow(c)
      case TypeError => Some(Thrown)
      case Normal(now) => if LooseLess(time, now) then Some(Rejected(400, PastMessage)) else None
    else None
  }

  /** Hour and minute order. */
  predicate TimeBefore(h: int, m: int, h': int, m': int)
  {
    h < h' || (h == h' && m < m')
  }

  /** A date and time strictly before the clock's. */
  predicate IsPast(d: Date, h: int, m: int, c: Clock)
  {
    Before(d, ClockDate(c)) || (d == ClockDate(c) && TimeBefore(h, m, c.hours, c.minutes))
  }

  /** Between two `HH:MM` texts, text order is time order. */
  lemma TimeTextOrder(t: string, u: string)
    requires IsTimeShape(t) && IsTimeShape(u)
    ensures LexLess(t, u) <==> TimeBefore(DigitsValue(t[..2]), DigitsValue(t[3..]), DigitsValue(u[..2]), DigitsValue(u[3..]))
  {
    assert t == t[..2] + ([':'] + t[3..]) && u == u[..2] + ([':'] + u[3..]);
    LexLessConcat(t[..2], [':'] + t[3..], u[..2], [':'] + u[3..]);
    LexLessConcat([':'], t[3..], [':'], u[3..]);
    LexLessIrreflexive([':']);
    LexLessDigits(t[..2], u[..2]);
    LexLessDigits(t[3..], u[3..]);
  }

  /** Two two-digit numerals joined by a colon make an `HH:MM` text. */
  lemma PaddedTimeShape(hh: string, mm: string)
    requires |hh| == 2 && |mm| == 2 && IsDigits(hh) && IsDigits(mm)
    ensures IsTimeShape(hh + ":" + mm) && (hh + ":" + mm)[..2] == hh && (hh + ":" + mm)[3..] == mm
  {
  }

  /** With a four-digit year and a zero-padded `HH:MM` time, the text
      comparisons agree with time order: the guard rejects exactly a date and
      time earlier than now. */
  lemma FutureCheckIsChronological(data: Body, c: Clock, d: Date, t: string)
    requires IsRealClock(c) && 1000 <= c.year <= 9999
    requires Get(data, "reservation_date").Str?
    requires ParseIsoDate(Get(data, "reservation_date").s) == Some(d)
    requires Get(data, "reservation_time") == Str(t) && IsTimeShape(t)
    ensures IsInTheFuture(Some(data), c)
         == if IsPast(d, DigitsValue(t[..2]), DigitsValue(t[3..]), c) then Some(Rejected(400, PastMessage))
            else None
  {
    var ds := Get(data, "reservation_date").s;
    assert !DateParseIsNaN(Get(data, "reservation_date")) by {
      assert IsoDay(ds) == Some(d);
    }
    TodayIsIsoDate(c);
    IsoOrderIsChronological(ds, Today(c));
    RightNowIsPaddedTime(c);
    var hh, mm := TwoDigits(c.hours), TwoDigits(c.minutes);
    PaddedTimeShape(hh, mm);
    TimeTextOrder(t, hh + ":" + mm);
  }

  /** `"11:5" < "11:40"` is false: the fourth characters compare '5' with '4'. */
  lemma UnpaddedMinuteText()
    ensures !LexLess("11:5", TwoDigits(11) + ":" + TwoDigits(40))
  {
    var hh, mm := TwoDigits(11), TwoDigits(40);
    DigitsValueShort("11");
    DigitsValueShort(hh);
    DigitsValueShort(mm);
    LexLessDigits("11", hh);
    assert "11:5" == "11" + ":5" && hh + ":" + mm == hh + (":" + mm);
    LexLessConcat("11", ":5", hh, ":" + mm);
    assert mm[0] == '4';
  }

  /** A minute written with one digit defeats the text comparison: at 11:40 a
      reservation for 11:05 today, written "11:5", is not seen as past. */
  lemma UnpaddedMinutePassesPastCheck(c: Clock)
    requires IsRealClock(c) && 1000 <= c.year <= 9999 && c.hours == 11 && c.minutes == 40
    ensures IsPast(ClockDate(c), 11, 5, c)
    ensures IsInTheFuture(Some(map["reservation_date" := Str(Today(c)), "reservation_time" := Str("11:5")]), c) == None
  {
    TodayIsIsoDate(c);
    LexLessIrreflexive(Today(c));
    RightNowIsPaddedTime(c);
    UnpaddedMinuteText();
  }

  // ---------------------------------------------------------------------------
  // isWithinOpenHours

  const HoursMessage: string := "Reservation must be made within business hours"

  /** `isWithinOpenHours`: the hour and minute pieces are compared with numbers,
      so they are coerced numerically; a missing minute is NaN. */
  function IsWithinOpenHours(data: Option<Body>): Option<Failure>
  {
    if data.None? then Some(Thrown)
    else
      var v := Get(data.value, "reservation_time");
      if !v.Str? then Some(Thrown)
      else
        var parts := Split(v.s, ':');
        var hour := ToNumber(parts[0]);
        var minute := if |parts| >= 2 then ToNumber(parts[1]) else NaN;
        if Below(hour, 10) || Above(hour, 21) then Some(Rejected(400, HoursMessage))
        else if (Below(hour, 11) && Below(minute, 30)) || (Above(hour, 20) && Above(minute, 30)) then
          Some(Rejected(400, HoursMessage))
        else None
  }

  /** For digit pieces and a minute below 60 the accepted window is exactly
      10:30 to 21:30 inclusive, single-digit hours included. */
  lemma OpenHoursWindow(data: Body, h: string, m: string)
    requires Get(data, "reservation_time") == Str(h + ":" + m)
    requires IsDigits(h) && IsDigits(m) && DigitsValue(m) < 60
    ensures IsWithinOpenHours(Some(data))
         == if 10 * 60 + 30 <= 60 * DigitsValue(h) + DigitsValue(m) <= 21 * 60 + 30 then None
            else Some(Rejected(400, HoursMessage))
  {
    assert ':' !in h && ':' !in m by {
      assert forall i :: 0 <= i < |h| ==> IsDigit(h[i]);
      assert forall i :: 0 <= i < |m| ==> IsDigit(m[i]);
    }
    SplitAtSeparator(h, ':', m);
    SplitNoSeparator(m, ':');
  }

  function WithTime(t: string): Body { map["reservation_time" := Str(t)] }

  /** 10:29 and 21:31, one minute outside the window, are refused. */
  lemma OpenHoursRefusesEdges()
    ensures IsWithinOpenHours(Some(WithTime("10:29"))) == Some(Rejected(400, HoursMessage))
    ensures IsWithinOpenHours(Some(WithTime("21:31"))) == Some(Rejected(400, HoursMessage))
  {
    DigitsValueShort("10");
    DigitsValueShort("21");
    DigitsValueShort("29");
    DigitsValueShort("31");
    assert "10" + ":" + "29" == "10:29" && "21" + ":" + "31" == "21:31";
    OpenHoursWindow(WithTime("10:29"), "10", "29");
    OpenHoursWindow(WithTime("21:31"), "21", "31");
  }

  /** 10:30 and 21:30, the first and last minutes of the window, are accepted. */
  lemma OpenHoursAcceptsEdges()
    ensures IsWithinOpenHours(Some(WithTime("10:30"))) == None
    ensures IsWithinOpenHours(Some(WithTime("21:30"))) == None
  {
    DigitsValueShort("10");
    DigitsValueShort("21");
    DigitsValueShort("30");
    assert "10" + ":" + "30" == "10:30" && "21" + ":" + "30" == "21:30";
    OpenHoursWindow(WithTime("10:30"), "10", "30");
    OpenHoursWindow(WithTime("21:30"), "21", "30");
  }

  // ---------------------------------------------------------------------------
  // Status guards

  /** The four lifecycle statuses. */
  datatype Status = Booked | Seated | Finished | Cancelled

  function StatusName(s: Status): string
  {
    match s
    case Booked => "booked"
    case Seated => "seated"
    case Finished => "finished"
    case Cancelled => "cancelled"
  }

  /** The status a value names, if it names one (strict equality with the text). */
  function ParseStatus(v: Value): (r: Option<Status>)
    ensures r.Some? ==> v == Str(StatusName(r.value))
    ensures forall s :: v == Str(StatusName(s)) ==> r == Some(s)
  {
    if v == Str("booked") then Some(Booked)
    else if v == Str("seated") then Some(Seated)
    else if v == Str("finished") then Some(Finished)
    else if v == Str("cancelled") then Some(Cancelled)
    else None
  }

  /** `VALID_STATUSES` of `isValidStatus`. */
  const ValidStatuses: seq<Value> := [Str("booked"), Str("seated"), Str("finished"), Str("cancelled")]

  /** `hasBookedStatus`: the status of the stored reservation when one has been
      loaded, otherwise that of the body, may not be seated, finished or
      cancelled; an absent or unknown status passes. */
  function HasBookedStatus(data: Option<Body>, locals: Locals): (r: Option<Failure>)
    ensures var source := if locals.reservation.Some? then locals.reservation else data;
      && (source.None? <==> r == Some(Thrown))
      && (source.Some? ==> (r.None? <==> ParseStatus(Get(source.value, "status")) in {None, Some(Booked)}))
  {
    var source := if locals.reservation.Some? then locals.reservation else data;
    if source.None? then Some(Thrown)
    else
      var status := Get(source.value, "status");
      if status == Str("seated") || status == Str("finished") || status == Str("cancelled") then
        Some(Rejected(400, "New reservation can not have " + status.s + " status."))
      else None
  }

  /** Only seated, finished and cancelled are refused: a status outside the
      lifecycle, such as "pending", passes. */
  lemma UnknownStatusPasses()
    ensures HasBookedStatus(Some(map["status" := Str("pending")]), NoLocals) == None
  {
  }

  /** `isValidStatus`: the requested status must be one of the four. */
  function IsValidStatus(data: Option<Body>): (r: Option<Failure>)
    ensures data.None? ==> r == Some(Thrown)
    ensures r.None? <==> data.Some? && ParseStatus(Get(data.value, "status")).Some?
  {
    if data.None? then Some(Thrown)
    else if Get(data.value, "status") !in ValidStatuses then Some(Rejected(400, "Status unknown."))
    else None
  }

  const FinishedMessage: string := "Cannot change a reservation with a finished status."

  /** `isAlreadyFinished`: a stored reservation whose status is finished can
      not change any more. */
  function IsAlreadyFinished(locals: Locals): (r: Option<Failure>)
    ensures locals.reservation.None? ==> r == Some(Thrown)
    ensures r.None? <==> locals.reservation.Some?
                         && ParseStatus(Get(locals.reservation.value, "status")) != Some(Finished)
  {
    if locals.reservation.None? then Some(Thrown)
    else if Get(locals.reservation.value, "status") == Str("finished") then Some(Rejected(400, FinishedMessage))
    else None
  }
}
