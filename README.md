# Reservation validation pipeline

A Dafny model of the reservations controller of a restaurant reservation
back end (`reservations.controller.js`). Each Express middleware of the
controller is a guard. It reads the submitted reservation (`req.body.data`),
the values earlier guards left in `res.locals` and, for the "not in the
past" check, the clock. It either passes control on (`next()`) or stops the
chain with an error (`next({status, message})`). The exported arrays fix the
order of the guards for each route. The route handlers then read or change
the reservations table.

Layout, one module per file:

- `text.dfy` (`Text`): decimal numerals, `toString(10)`, `padStart(2, "0")`,
  `slice(-2)`, `split` and JavaScript's `<` on two strings. That `<` is
  lexicographic, and it agrees with numeric order on digit strings of equal
  length.
- `js_values.dfy` (`JsValues`): the scalar JavaScript values a request body
  can hold (no objects or arrays). Also truthiness, `Number(...)` coercion with NaN, comparisons against
  numbers, and property reads that may give `undefined`.
- `wrappers.dfy` (`Wrappers`): `Option`.
- `calendar.dfy` (`Calendar`): Gregorian dates and the next day. The
  weekday uses Sakamoto's method and is proved to advance by one per day.
  Parsing of `YYYY-MM-DD` text is proved to keep text order equal to
  calendar order.
- `js_dates.dfy` (`JsDates`): `Date.parse` on date-only text, and
  `new Date("MM DD, YYYY")`, both with V8's rollover of a late day into the
  next month.
- `middleware.dfy` (`Middleware`): what a guard hands to `next`, and
  `res.locals`.
- `field_validator.dfy` (`FieldValidator`): `_validateTime` and
  `isValidReservation`. The latter is a loop over the field list that keeps
  the first report.
- `guards.dfy` (`Guards`): `isNotOnTuesday`, and `isInTheFuture` with
  `asDateString`, `formatAsTime`, `rightNow` and `today`; the clock is a
  parameter. Also `isWithinOpenHours`, `hasBookedStatus`, `isValidStatus`
  and `isAlreadyFinished`.
- `store.dfy` (`Store`): the reservations table as a class holding a map
  from id to row.
- `routes.dfy` (`Routes`): the guard lists of `create`, `read`, `update`
  and `modify`, as a short-circuit fold, and the route handlers over the
  store.

Where the code and the intended design differ, the model follows the code:

- `21:30` is accepted, because the second test of `isWithinOpenHours` only
  rejects minutes above 30 after hour 20.
- `cancelled` is not terminal, and `booked -> finished` is allowed; only
  `finished` is terminal.
- In `modify`, `hasBookedStatus` checks the status of the stored row, not
  the one submitted.
- `hasBookedStatus` refuses only seated, finished and cancelled, so a new
  reservation may carry any other status, such as "pending" or a number,
  not only booked (`UnknownStatusPasses`).
- A `YYYY-MM-DD` date with a day past the end of its month, such as
  `2023-02-29`, is read by `Date.parse` as a day of the next month and
  passes `isValidReservation` (`LateDayRollsOver`). The Tuesday check then
  judges the day it rolls over to, while the past check still compares the
  text as written.
- `people` only has to be a non-zero number, so a negative count passes.
- A time with an unpadded minute such as `11:5` escapes the past-time check,
  because the comparison is textual (`UnpaddedMinutePassesPastCheck`).

## Model

| member | source | states |
|---|---|---|
| FieldValidator.ValidateTimeOnDigits | Final-Capstone-Restaurant-Reservations-AY/back-end/src/reservations/reservations.controller.js:14-22 | On `H:M` with digit parts, `_validateTime` accepts exactly when both parts have at most two digits, the hour is 1..23 and the minute 0..59. |
| FieldValidator.ValidateTimeIgnoresSeconds | Final-Capstone-Restaurant-Reservations-AY/back-end/src/reservations/reservations.controller.js:15 | Only the first two pieces of the split matter; anything after a second colon is ignored. |
| FieldValidator.ValidateTimeWithoutColon | Final-Capstone-Restaurant-Reservations-AY/back-end/src/reservations/reservations.controller.js:15-17 | Without a colon, a time longer than two characters is rejected; otherwise reading `minute.length` throws. |
| FieldValidator.NonNumericTimeAccepted | Final-Capstone-Restaurant-Reservations-AY/back-end/src/reservations/reservations.controller.js:18-19 | Non-numeric parts are NaN, fail every range test and are accepted (`"ab:cd"`). |
| FieldValidator.FieldPasses | Final-Capstone-Restaurant-Reservations-AY/back-end/src/reservations/reservations.controller.js:47-65 | One field passes the callback exactly when it is truthy and, for its kind, is a number (`people`), parses as a date (`reservation_date`) or is a valid time (`reservation_time`). |
| FieldValidator.FirstFieldErrorIsFirst | Final-Capstone-Restaurant-Reservations-AY/back-end/src/reservations/reservations.controller.js:47-65 | The report is e exactly when some field reports e and every field before it reports nothing. |
| FieldValidator.FirstFieldErrorNone | Final-Capstone-Restaurant-Reservations-AY/back-end/src/reservations/reservations.controller.js:47-67 | There is no report exactly when every field passes. |
| FieldValidator.FirstFieldErrorSnoc | Final-Capstone-Restaurant-Reservations-AY/back-end/src/reservations/reservations.controller.js:47-65 | Scanning one more field changes the report only when none has been found yet. |
| FieldValidator.ValidateReservation | Final-Capstone-Restaurant-Reservations-AY/back-end/src/reservations/reservations.controller.js:40-68 | The `forEach` loop: a missing body gives "Must have data property."; otherwise the result is the report of the first failing field in `VALID_RESERVATION_FIELDS` order. |
| FieldValidator.ValidReservationExactly | Final-Capstone-Restaurant-Reservations-AY/back-end/src/reservations/reservations.controller.js:40-68 | A body passes exactly when the names and phone are truthy, the date parses to a non-zero time, the time passes `_validateTime` and `people` is a non-zero number. |
| FieldValidator.ZeroPeopleIsMissing | Final-Capstone-Restaurant-Reservations-AY/back-end/src/reservations/reservations.controller.js:48-55 | `people = 0` is reported as "people field required", not as a type error. |
| FieldValidator.MissingFieldReported | Final-Capstone-Restaurant-Reservations-AY/back-end/src/reservations/reservations.controller.js:4-11 | A falsy field is the one reported ("<field> field required") when every earlier field passes. |
| Text.NatToString | Final-Capstone-Restaurant-Reservations-AY/back-end/src/reservations/reservations.controller.js:88-90 | `toString(10)` yields a digit string, without a leading zero, that denotes the number. |
| Text.PadStart2Value | Final-Capstone-Restaurant-Reservations-AY/back-end/src/reservations/reservations.controller.js:89-90 | `padStart(2, "0")` keeps the number a digit string denotes. |
| Text.LastTwoPadded | Final-Capstone-Restaurant-Reservations-AY/back-end/src/reservations/reservations.controller.js:99 | For n < 100, `('00' + n).slice(-2)` is the two-digit zero-padded numeral of n. |
| Text.LexLessDigits | Final-Capstone-Restaurant-Reservations-AY/back-end/src/reservations/reservations.controller.js:115-118 | On digit strings of equal length, string `<` is numeric `<`, and string equality is numeric equality. |
| Text.SplitJoin | Final-Capstone-Restaurant-Reservations-AY/back-end/src/reservations/reservations.controller.js:72 | `split` loses nothing: joining the pieces gives the text back, and no piece contains the separator. |
| Calendar.NextDay | Final-Capstone-Restaurant-Reservations-AY/back-end/src/reservations/reservations.controller.js:73-77 | The day after a valid date is a valid date, later than it. |
| Calendar.NextDayIsImmediate | Final-Capstone-Restaurant-Reservations-AY/back-end/src/reservations/reservations.controller.js:73-77 | No valid date lies strictly between a date and its next day. |
| Calendar.WeekdayOfNextDay | Final-Capstone-Restaurant-Reservations-AY/back-end/src/reservations/reservations.controller.js:77 | `getDay()` advances by one, modulo 7, from each day to the next. |
| Calendar.KnownWeekdays | Final-Capstone-Restaurant-Reservations-AY/back-end/src/reservations/reservations.controller.js:77 | 1970-01-01 is a Thursday and 2024-07-02 a Tuesday. |
| Calendar.ParseIsoDate | Final-Capstone-Restaurant-Reservations-AY/back-end/src/reservations/reservations.controller.js:57 | Parsing `YYYY-MM-DD` gives, when it succeeds, a valid date with a year of at most four digits. |
| Calendar.IsoOrderIsChronological | Final-Capstone-Restaurant-Reservations-AY/back-end/src/reservations/reservations.controller.js:115 | Between `YYYY-MM-DD` texts, string `<` is calendar order and string equality is date equality. |
| JsDates.RollOver | Final-Capstone-Restaurant-Reservations-AY/back-end/src/reservations/reservations.controller.js:57 | A month of 1..12 and a day of 1..31 always give a real date, and a day that exists in its month is kept as it is. |
| JsDates.RollOverCountsDays | Final-Capstone-Restaurant-Reservations-AY/back-end/src/reservations/reservations.controller.js:57 | Day d of a month, real or past the month's end, is the date d - 1 days after the first of that month. |
| JsDates.IsoDay | Final-Capstone-Restaurant-Reservations-AY/back-end/src/reservations/reservations.controller.js:57 | The day `Date.parse` reads from `YYYY-MM-DD` text is a real date, and it is the named date whenever the text names a real one. |
| JsDates.LateDayRollsOver | Final-Capstone-Restaurant-Reservations-AY/back-end/src/reservations/reservations.controller.js:57-62 | "2023-02-29" names no real date, yet `Date.parse` reads it as 1 March 2023 and the date check passes. |
| JsDates.IsoDateSplit | Final-Capstone-Restaurant-Reservations-AY/back-end/src/reservations/reservations.controller.js:72-73 | A `YYYY-MM-DD` text splits on "-" into year, month and day, and `new Date("MM DD, YYYY")` rebuilt from them is the day `Date.parse` reads. |
| Calendar.AddDaysSplit | Final-Capstone-Restaurant-Reservations-AY/back-end/src/reservations/reservations.controller.js:73 | Counting a + b days forward is counting a days, then b more. |
| Calendar.AddDaysInMonth | Final-Capstone-Restaurant-Reservations-AY/back-end/src/reservations/reservations.controller.js:73 | Within a month, k days after the first is day k + 1. |
| JsValues.ToNumberOfIntToString | Final-Capstone-Restaurant-Reservations-AY/back-end/src/reservations/reservations.controller.js:18-19 | Coercing the decimal text of an integer gives that integer back. |
| JsValues.LooseLessNonString | Final-Capstone-Restaurant-Reservations-AY/back-end/src/reservations/reservations.controller.js:118 | A non-string time is never `<` an `HH:MM` text, since the text coerces to NaN. |
| Guards.AsDateStringPads | Final-Capstone-Restaurant-Reservations-AY/back-end/src/reservations/reservations.controller.js:87-91 | `asDateString` is the year, then the month and day each as two zero-padded digits. |
| Guards.TodayIsIsoDate | Final-Capstone-Restaurant-Reservations-AY/back-end/src/reservations/reservations.controller.js:103-105 | For a four-digit year, `today()` is the `YYYY-MM-DD` text of the clock's date. |
| Guards.FormatAsTime | Final-Capstone-Restaurant-Reservations-AY/back-end/src/reservations/reservations.controller.js:93-95 | `formatAsTime` gives the leftmost `HH:MM` substring of its text (`match(...)[0]`), and throws exactly when the text contains none. |
| Guards.RightNowIsPaddedTime | Final-Capstone-Restaurant-Reservations-AY/back-end/src/reservations/reservations.controller.js:97-101 | `rightNow()` is the zero-padded current hour, a colon and the zero-padded minute. |
| Guards.RightNowNeverThrows | Final-Capstone-Restaurant-Reservations-AY/back-end/src/reservations/reservations.controller.js:97-101 | `rightNow()` always finds an `HH:MM` text, whatever the clock shows. |
| Guards.TuesdayRejected | Final-Capstone-Restaurant-Reservations-AY/back-end/src/reservations/reservations.controller.js:70-82 | On a `YYYY-MM-DD` date, `isNotOnTuesday` rejects exactly when the weekday of the day read (rolled over if late) is 2, and otherwise records that day in `res.locals.date`. |
| Guards.ClosedOnTuesdayExample | Final-Capstone-Restaurant-Reservations-AY/back-end/src/reservations/reservations.controller.js:77-79 | 2024-07-02 is refused with "Location is closed on Tuesdays", whatever the time. |
| Guards.TimeTextOrder | Final-Capstone-Restaurant-Reservations-AY/back-end/src/reservations/reservations.controller.js:118 | Between two `HH:MM` texts, string `<` is (hour, minute) order. |
| Guards.FutureCheckIsChronological | Final-Capstone-Restaurant-Reservations-AY/back-end/src/reservations/reservations.controller.js:107-122 | With a four-digit year and a padded `HH:MM` time, `isInTheFuture` rejects exactly a date before today, or today with a time before now. |
| Guards.UnpaddedMinuteText | Final-Capstone-Restaurant-Reservations-AY/back-end/src/reservations/reservations.controller.js:118 | `"11:5" < "11:40"` is false as text. |
| Guards.UnpaddedMinutePassesPastCheck | Final-Capstone-Restaurant-Reservations-AY/back-end/src/reservations/reservations.controller.js:118-120 | At 11:40, today at "11:5" is in the past, yet `isInTheFuture` lets it through. |
| Guards.OpenHoursWindow | Final-Capstone-Restaurant-Reservations-AY/back-end/src/reservations/reservations.controller.js:143-161 | For digit parts and a minute below 60, `isWithinOpenHours` accepts exactly 10:30 to 21:30 inclusive. |
| Guards.OpenHoursRefusesEdges | Final-Capstone-Restaurant-Reservations-AY/back-end/src/reservations/reservations.controller.js:147-159 | 10:29 and 21:31 are refused with "Reservation must be made within business hours". |
| Guards.OpenHoursAcceptsEdges | Final-Capstone-Restaurant-Reservations-AY/back-end/src/reservations/reservations.controller.js:147-159 | 10:30 and 21:30 are accepted. |
| Guards.ParseStatus | Final-Capstone-Restaurant-Reservations-AY/back-end/src/reservations/reservations.controller.js:179 | A value names a status exactly when it is the text of that status. |
| Guards.HasBookedStatus | Final-Capstone-Restaurant-Reservations-AY/back-end/src/reservations/reservations.controller.js:163-176 | Reads the loaded row's status if there is one, else the body's; throws when neither exists; passes exactly when that status is absent, unknown or booked. |
| Guards.UnknownStatusPasses | Final-Capstone-Restaurant-Reservations-AY/back-end/src/reservations/reservations.controller.js:168-175 | A status outside the lifecycle, such as "pending", passes `hasBookedStatus`. |
| Guards.IsValidStatus | Final-Capstone-Restaurant-Reservations-AY/back-end/src/reservations/reservations.controller.js:178-187 | Passes exactly when the requested status is one of the four; throws without a body. |
| Guards.IsAlreadyFinished | Final-Capstone-Restaurant-Reservations-AY/back-end/src/reservations/reservations.controller.js:189-200 | Passes exactly when the loaded row's status is not finished; throws when no row was loaded. |
| Store.WithId | Final-Capstone-Restaurant-Reservations-AY/back-end/src/reservations/reservations.controller.js:207 | `reservation.reservation_id = id` sets the id and keeps every other property. |
| Store.WithStatus | Final-Capstone-Restaurant-Reservations-AY/back-end/src/reservations/reservations.controller.js:219 | Updating a row's status sets that column and keeps the others. |
| Store.Merge | Final-Capstone-Restaurant-Reservations-AY/back-end/src/reservations/reservations.controller.js:227 | Modifying a row takes the columns the body names and keeps the rest and the row's id. |
| Store.ReservationStore.constructor | Final-Capstone-Restaurant-Reservations-AY/back-end/src/reservations/reservations.controller.js:2 | An empty table whose first id is 1. |
| Store.ReservationStore.Read | Final-Capstone-Restaurant-Reservations-AY/back-end/src/reservations/reservations.controller.js:27 | `service.read(id)` gives the stored row exactly when the id is stored. |
| Store.ReservationStore.Create | Final-Capstone-Restaurant-Reservations-AY/back-end/src/reservations/reservations.controller.js:205 | `service.create` stores the record under a fresh id and returns that id; no other row changes, and the table invariant is kept. |
| Store.ReservationStore.UpdateStatus | Final-Capstone-Restaurant-Reservations-AY/back-end/src/reservations/reservations.controller.js:219 | `service.update` changes only the status of that one row. |
| Store.ReservationStore.Modify | Final-Capstone-Restaurant-Reservations-AY/back-end/src/reservations/reservations.controller.js:227 | `service.modify` changes only that one row, which keeps its id. |
| Routes.ReservationExistsStep | Final-Capstone-Restaurant-Reservations-AY/back-end/src/reservations/reservations.controller.js:25-38 | `reservationExists` passes exactly for a stored id and records the row in `res.locals.reservation`; otherwise it answers 404 "Reservation_id <id> does not exist.". |
| Routes.ChainAppend | Final-Capstone-Restaurant-Reservations-AY/back-end/src/reservations/reservations.controller.js:248-274 | Running two guard lists one after the other is running their concatenation. |
| Routes.ChainFailsAtFirst | Final-Capstone-Restaurant-Reservations-AY/back-end/src/reservations/reservations.controller.js:248-274 | A route's guards fail with f exactly when some guard fails with f after every guard before it has passed. |
| Routes.FirstFailure | Final-Capstone-Restaurant-Reservations-AY/back-end/src/reservations/reservations.controller.js:248-274 | A failing chain has a first failing guard, and its failure is the chain's. |
| Routes.FailureStopsChain | Final-Capstone-Restaurant-Reservations-AY/back-end/src/reservations/reservations.controller.js:248-274 | A guard that fails after all earlier ones passed ends the chain with its failure. |
| Routes.OnlyReservationExistsAnswers404 | Final-Capstone-Restaurant-Reservations-AY/back-end/src/reservations/reservations.controller.js:35-37 | Every guard other than `reservationExists` rejects with status 400 only. |
| Routes.CreatePassesExactly | Final-Capstone-Restaurant-Reservations-AY/back-end/src/reservations/reservations.controller.js:249-256 | `create` passes its guards exactly when the fields, Tuesday, future and hours checks pass and the body's status is absent or anything other than seated, finished and cancelled. |
| Routes.CreateAcceptsWellFormed | Final-Capstone-Restaurant-Reservations-AY/back-end/src/reservations/reservations.controller.js:249-256 | For a complete body with a padded time and a four-digit year, `create` accepts exactly a valid clock time that is not on a Tuesday, not in the past, within 10:30..21:30, with a status that is absent or anything other than seated, finished and cancelled. |
| Routes.ModifyNotFoundOnlyAfterChecks | Final-Capstone-Restaurant-Reservations-AY/back-end/src/reservations/reservations.controller.js:264-272 | `modify` answers 404 exactly when the field, Tuesday, future and hours checks all pass and the id is unknown. |
| Routes.ModifyChecksStoredStatus | Final-Capstone-Restaurant-Reservations-AY/back-end/src/reservations/reservations.controller.js:264-272 | `modify` passes exactly when the body checks pass, the id exists and the stored status is absent or anything other than seated, finished and cancelled. |
| Routes.UpdateAcceptsExactly | Final-Capstone-Restaurant-Reservations-AY/back-end/src/reservations/reservations.controller.js:258-263 | An update passes exactly when the id exists, the requested status is one of the four and the stored status is not finished. |
| Routes.FinishedIsTerminal | Final-Capstone-Restaurant-Reservations-AY/back-end/src/reservations/reservations.controller.js:189-200 | A finished reservation can be neither updated nor modified. |
| Routes.TransitionsNotRestricted | Final-Capstone-Restaurant-Reservations-AY/back-end/src/reservations/reservations.controller.js:258-263 | `cancelled -> booked` and `booked -> finished` both pass. |
| Routes.ValidatedHasData | Final-Capstone-Restaurant-Reservations-AY/back-end/src/reservations/reservations.controller.js:43-45 | A chain that starts with `isValidReservation` passes only with a body. |
| Routes.RunGuards | Final-Capstone-Restaurant-Reservations-AY/back-end/src/reservations/reservations.controller.js:248-274 | Running a route's middleware one by one, with the field loop and the store read, gives the fold's outcome. |
| Routes.CreateRoute | Final-Capstone-Restaurant-Reservations-AY/back-end/src/reservations/reservations.controller.js:203-209 | If a guard fails, that failure is the answer and the store is untouched. Otherwise the body is stored under a fresh id and the answer is 201 with the body and its new `reservation_id`. |
| Routes.ReadRoute | Final-Capstone-Restaurant-Reservations-AY/back-end/src/reservations/reservations.controller.js:211-214 | The stored row for a known id, 404 otherwise. |
| Routes.UpdateRoute | Final-Capstone-Restaurant-Reservations-AY/back-end/src/reservations/reservations.controller.js:216-222 | If a guard fails, that failure is the answer and the store is untouched. Otherwise only that row's status changes, and the answer is the updated row. |
| Routes.ModifyRoute | Final-Capstone-Restaurant-Reservations-AY/back-end/src/reservations/reservations.controller.js:224-231 | If a guard fails, that failure is the answer and the store is untouched. Otherwise only that row changes, and the answer is the body with the row's `reservation_id`. |
| Routes.CreateThenRead | Final-Capstone-Restaurant-Reservations-AY/back-end/src/reservations/reservations.controller.js:257 | Reading the id of an accepted create gives back the created record. |

## Left out

- `reservations.service` is not part of this model. The database is replaced by `Store.ReservationStore`. `read`, `create`, `update` and `modify` are assumed to read a row, insert under the next serial id, set the status, and overwrite the named columns.
- Store.ReservationStore.Create: the stored row takes the fresh id even when the body carries its own `reservation_id`; what the database would do then is not modelled.
- Store.Merge: a `reservation_id` in a modify body is assumed not to move the row; what the database would do then is not modelled.
- `list` and the search by phone delegate to the service and are not modelled.
- `asyncErrorBoundary`, the `req`/`res` plumbing and JSON serialisation are not modelled. A failure is kept as its status and message, or as an exception (`Thrown`).
- The commented-out second `isInTheFuture` (lines 125-141) is dead code.
- The wall clock and the time zone of `new Date()` are not modelled. The clock's local fields are a parameter, read once per request. `isInTheFuture` reads the clock three times (`today()` twice and `rightNow()` once); around midnight those readings can disagree, and the model does not capture that.
- `Date.parse` is modelled only for `YYYY-MM-DD` text with a month of 1..12 and a day of 1..31, where a late day rolls over into the next month; other text forms, extended years and non-text values count as NaN. The legacy `"MM DD, YYYY"` parser is modelled with the same ranges and rollover; its mapping of years below 100 is not modelled.
- JSON objects and arrays in a request body are not modelled (`JsValues.Value` has no such case). An array `reservation_date`, for example, would get past `Date.parse` and then throw at `.split`.
- `Number(...)` coercion is modelled for digit strings (the empty string is 0) and one sign followed by digits. Whitespace, decimals, exponents and hex are not modelled. Numbers are integers.
- The `forEach` in `isValidReservation` calls `next(err)` once per failing field, and then `next()` again, unless `_validateTime` throws, which ends the loop before line 67. Only the first report (a rejection or the throw) is modelled.
- Concurrency between the read and the write of `update` and `modify` is not modelled; each route runs alone.
- Route ids are natural numbers; a non-numeric `reservation_Id` parameter is not modelled.
- JavaScript strings are UTF-16 code units, while Dafny's `char` is a code point; text order agrees on the ASCII texts the properties are about.
- Guards.FutureCheckIsChronological: time order is proved only for a four-digit year and a zero-padded `HH:MM` time; `UnpaddedMinutePassesPastCheck` shows why.
- Routes.CreateAcceptsWellFormed: stated only for two-digit hour and minute parts and a date that names a real day.
