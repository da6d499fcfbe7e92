/** `isValidReservation` and its helper `_validateTime`: the structural check of
    a submitted reservation, which reports the first failing field only. */
module FieldValidator {
  import opened Wrappers
  import opened Text
  import opened JsValues
  import opened JsDates
  import opened Middleware

  /** `VALID_RESERVATION_FIELDS`, in the order they are checked. */
  const ReservationFields: seq<string> :=
    ["first_name", "last_name", "mobile_number", "reservation_date", "reservation_time", "people"]

  /** `_validateTime(str)`. The hour and minute are the first two pieces of
      `str.split(":")` and are coerced to numbers for the range tests, so a
      non-numeric piece (NaN) passes them. With no colon and an hour of at most
      two characters, `minute.length` reads a property of `undefined` and throws. */
  function ValidateTime(str: string): Completion<bool>
  {
    var parts := Split(str, ':');
    var hour := parts[0];
    if |hour| > 2 then Normal(false)
    else if |parts| < 2 then TypeError
    else
      var minute := parts[1];
      if |minute| > 2 then Normal(false)
      else if Below(ToNumber(hour), 1) || Above(ToNumber(hour), 23) then Normal(false)
      else if Below(ToNumber(minute), 0) || Above(ToNumber(minute), 59) then Normal(false)
      else Normal(true)
  }

  /** On `H:M` with digit parts, a time is accepted exactly when both parts have
      at most two digits, the hour is 1..23 and the minute 0..59. */
  lemma ValidateTimeOnDigits(h: string, m: string)
    requires IsDigits(h) && IsDigits(m)
    ensures ValidateTime(h + ":" + m)
         == Normal(|h| <= 2 && |m| <= 2 && 1 <= DigitsValue(h) <= 23 && DigitsValue(m) <= 59)
  {
    NoColonInDigits(h);
    NoColonInDigits(m);
    SplitAtSeparator(h, ':', m);
    SplitNoSeparator(m, ':');
  }

  /** Pieces after the minute, such as seconds, are ignored. */
  lemma ValidateTimeIgnoresSeconds(h: string, m: string, rest: string)
    requires ':' !in h && ':' !in m
    ensures ValidateTime(h + ":" + m + ":" + rest) == ValidateTime(h + ":" + m)
  {
    assert h + ":" + m + ":" + rest == h + [':'] + (m + [':'] + rest);
    SplitAtSeparator(h, ':', m + [':'] + rest);
    SplitAtSeparator(m, ':', rest);
    SplitAtSeparator(h, ':', m);
    SplitNoSeparator(m, ':');
  }

  /** Without a colon a time is rejected when longer than two characters and
      otherwise makes `_validateTime` throw. */
  lemma ValidateTimeWithoutColon(s: string)
    requires ':' !in s
    ensures ValidateTime(s) == if |s| > 2 then Normal(false) else TypeError
  {
    SplitNoSeparator(s, ':');
  }

  /** Non-numeric parts compare false against every bound and slip through. */
  lemma NonNumericTimeAccepted()
    ensures ValidateTime("ab:cd") == Normal(true)
  {
    SplitAtSeparator("ab", ':', "cd");
    SplitNoSeparator("cd", ':');
    assert !IsDigit("ab"[0]) && !IsDigit("cd"[0]);
  }

  lemma NoColonInDigits(s: string)
    requires IsDigits(s)
    ensures ':' !in s
  {
  }

  /** What the `forEach` callback of `isValidReservation` reports for one field:
      a missing (falsy) value first, then the type of `people`, the
      parseability of `reservation_date` and the syntax of `reservation_time`. */
  function FieldError(data: Body, field: string): Option<Failure>
  {
    var v := Get(data, field);
    if !Truthy(v) then Some(Rejected(400, field + " field required"))
    else if field == "people" && !v.Number? then
      Some(Rejected(400, ToText(v) + " is not a number type for people field."))
    else if field == "reservation_date" && !DateParseIsTruthy(v) then
      Some(Rejected(400, field + " is not a valid date."))
    else if field == "reservation_time" then
      if !v.Str? then Some(Thrown)
      else match ValidateTime(v.s)
        case TypeError => Some(Thrown)
        case Normal(ok) => if ok then None else Some(Rejected(400, field + " is not a valid time"))
    else None
  }

  /** The report of the first field, in the given order, that has one. */
  function FirstFieldError(data: Body, fields: seq<string>): Option<Failure>
    decreases |fields|
  {
    if |fields| == 0 then None
    else if FieldError(data, fields[0]).Some? then FieldError(data, fields[0])
    else FirstFieldError(data, fields[1..])
  }

  /** `isValidReservation` as a function of `req.body.data`; None is `next()`. */
  function IsValidReservation(data: Option<Body>): Option<Failure>
  {
    if data.None? then Some(Rejected(400, "Must have data property."))
    else FirstFieldError(data.value, ReservationFields)
  }

  /** Scanning one more field changes the report only when none was found yet. */
  lemma {:induction false} FirstFieldErrorSnoc(data: Body, fields: seq<string>, f: string)
    ensures FirstFieldError(data, fields + [f])
         == if FirstFieldError(data, fields).Some? then FirstFieldError(data, fields) else FieldError(data, f)
    decreases |fields|
  {
    if |fields| > 0 {
      assert (fields + [f])[1..] == fields[1..] + [f];
      FirstFieldErrorSnoc(data, fields[1..], f);
    }
  }

  /** The report is that of the first failing field: every field before it passes. */
  lemma {:induction false} FirstFieldErrorIsFirst(data: Body, fields: seq<string>, e: Failure)
    ensures FirstFieldError(data, fields) == Some(e)
        <==> exists i :: 0 <= i < |fields| && FieldError(data, fields[i]) == Some(e)
                         && forall j :: 0 <= j < i ==> FieldError(data, fields[j]).None?
    decreases |fields|
  {
    if |fields| > 0 {
      FirstFieldErrorIsFirst(data, fields[1..], e);
      if FieldError(data, fields[0]).None? {
        if FirstFieldError(data, fields) == Some(e) {
          var i :| 0 <= i < |fields[1..]| && FieldError(data, fields[1..][i]) == Some(e)
                   && forall j :: 0 <= j < i ==> FieldError(data, fields[1..][j]).None?;
          assert FieldError(data, fields[i + 1]) == Some(e);
          assert forall j :: 0 <= j < i + 1 ==> FieldError(data, fields[j]).None? by {
            forall j | 0 <= j < i + 1 ensures FieldError(data, fields[j]).None? {
              if j > 0 { assert fields[j] == fields[1..][j - 1]; }
            }
          }
        }
        if exists i :: 0 <= i < |fields| && FieldError(data, fields[i]) == Some(e)
                       && forall j :: 0 <= j < i ==> FieldError(data, fields[j]).None? {
          var i :| 0 <= i < |fields| && FieldError(data, fields[i]) == Some(e)
                   && forall j :: 0 <= j < i ==> FieldError(data, fields[j]).None?;
          assert i > 0;
          assert FieldError(data, fields[1..][i - 1]) == Some(e);
          assert forall j :: 0 <= j < i - 1 ==> FieldError(data, fields[1..][j]).None? by {
            forall j | 0 <= j < i - 1 ensures FieldError(data, fields[1..][j]).None? {
              assert fields[1..][j] == fields[j + 1];
            }
          }
        }
      } else {
        if exists i :: 0 <= i < |fields| && FieldError(data, fields[i]) == Some(e)
                       && forall j :: 0 <= j < i ==> FieldError(data, fields[j]).None? {
          var i :| 0 <= i < |fields| && FieldError(data, fields[i]) == Some(e)
                   && forall j :: 0 <= j < i ==> FieldError(data, fields[j]).None?;
          assert i == 0;
        }
        if FirstFieldError(data, fields) == Some(e) {
          assert FieldError(data, fields[0]) == Some(e);
        }
      }
    }
  }

  /** No report at all exactly when every field passes. */
  lemma {:induction false} FirstFieldErrorNone(data: Body, fields: seq<string>)
    ensures FirstFieldError(data, fields).None?
        <==> forall i :: 0 <= i < |fields| ==> FieldError(data, fields[i]).None?
    decreases |fields|
  {
    if |fields| > 0 {
      FirstFieldErrorNone(data, fields[1..]);
      assert forall i :: 1 <= i < |fields| ==> fields[i] == fields[1..][i - 1];
    }
  }

  /** `isValidReservation` itself: the `forEach` over the field list. The scan
      goes on after a failure, as the callback's `return` only leaves the
      callback, but only the first report reaches the client. */
  method ValidateReservation(data: Option<Body>) returns (error: Option<Failure>)
    ensures error == IsValidReservation(data)
  {
    if data.None? {
      return Some(Rejected(400, "Must have data property."));
    }
    var body := data.value;
    error := None;
    for i := 0 to |ReservationFields|
      invariant error == FirstFieldError(body, ReservationFields[..i])
    {
      var report := FieldError(body, ReservationFields[i]);
      if error.None? {
        error := report;
      }
      FirstFieldErrorSnoc(body, ReservationFields[..i], ReservationFields[i]);
      assert ReservationFields[..i + 1] == ReservationFields[..i] + [ReservationFields[i]];
    }
    assert ReservationFields[..|ReservationFields|] == ReservationFields;
  }

  /** A record passes exactly when the three text fields are non-empty, the date
      is parseable and not 1970-01-01, the time is accepted by `_validateTime`
      and `people` is a non-zero number. */
  lemma ValidReservationExactly(data: Body)
    ensures IsValidReservation(Some(data)).None?
        <==> Truthy(Get(data, "first_name")) && Truthy(Get(data, "last_name"))
             && Truthy(Get(data, "mobile_number"))
             && DateParseIsTruthy(Get(data, "reservation_date"))
             && Get(data, "reservation_time").Str?
             && ValidateTime(Get(data, "reservation_time").s) == Normal(true)
             && Get(data, "people").Number? && Get(data, "people").n != 0
  {
    FirstFieldErrorNone(data, ReservationFields);
    var f := ReservationFields;
    assert f[0] == "first_name" && f[1] == "last_name" && f[2] == "mobile_number";
    assert f[3] == "reservation_date" && f[4] == "reservation_time" && f[5] == "people";
    FieldPasses(data, f[0]);
    FieldPasses(data, f[1]);
    FieldPasses(data, f[2]);
    FieldPasses(data, f[3]);
    FieldPasses(data, f[4]);
    FieldPasses(data, f[5]);
  }

  /** When one field passes the `forEach` callback. */
  lemma FieldPasses(data: Body, field: string)
    ensures FieldError(data, field).None?
        <==> && Truthy(Get(data, field))
             && (field == "people" ==> Get(data, field).Number?)
             && (field == "reservation_date" ==> DateParseIsTruthy(Get(data, field)))
             && (field == "reservation_time" ==> Get(data, field).Str? && ValidateTime(Get(data, field).s) == Normal(true))
  {
  }

  /** `people = 0` is reported as missing, not as a type error, once the fields
      before it pass. */
  lemma ZeroPeopleIsMissing(data: Body)
    requires forall i :: 0 <= i < 5 ==> FieldError(data, ReservationFields[i]).None?
    requires Get(data, "people") == Number(0)
    ensures IsValidReservation(Some(data)) == Some(Rejected(400, "people field required"))
  {
    var e := Rejected(400, "people field required");
    assert ReservationFields[5] == "people";
    assert "people" + " field required" == "people field required";
    assert FieldError(data, ReservationFields[5]) == Some(e);
    FirstFieldErrorIsFirst(data, ReservationFields, e);
  }

  /** A missing field is the one reported when every field before it passes. */
  lemma MissingFieldReported(data: Body, i: nat)
    requires i < |ReservationFields|
    requires forall j :: 0 <= j < i ==> FieldError(data, ReservationFields[j]).None?
    requires !Truthy(Get(data, ReservationFields[i]))
    ensures IsValidReservation(Some(data)) == Some(Rejected(400, ReservationFields[i] + " field required"))
  {
    FirstFieldErrorIsFirst(data, ReservationFields, Rejected(400, ReservationFields[i] + " field required"));
  }
}
