/** The route handlers of `module.exports`: each route is an ordered list of
    guards that Express runs one after the other, stopping at the first that
    calls `next` with an error, and then the handler that touches the store. */
module Routes {
  import opened Wrappers
  import opened Text
  import opened JsValues
  import opened Calendar
  import opened JsDates
  import opened Middleware
  import opened FieldValidator
  import opened Guards
  import opened Store

  /** The validation middleware, by name. */
  datatype Guard =
    | ValidReservation    // isValidReservation
    | NotOnTuesday        // isNotOnTuesday
    | InTheFuture         // isInTheFuture
    | WithinOpenHours     // isWithinOpenHours
    | ReservationExists   // reservationExists
    | BookedStatus        // hasBookedStatus
    | KnownStatus         // isValidStatus
    | NotAlreadyFinished  // isAlreadyFinished

  /** What a route reads from the request: `req.params.reservation_Id` and
      `req.body.data`. */
  datatype Request = Request(reservationId: nat, data: Option<Body>)

  /** The response: a status with the `data` of the JSON body, or the error
      handed to the error handler. */
  datatype Reply = Ok(status: nat, data: Body) | Refused(failure: Failure)

  const CreateGuards: seq<Guard> := [ValidReservation, NotOnTuesday, InTheFuture, WithinOpenHours, BookedStatus]
  const ReadGuards: seq<Guard> := [ReservationExists]
  const UpdateGuards: seq<Guard> := [ReservationExists, KnownStatus, NotAlreadyFinished]
  const ModifyGuards: seq<Guard> :=
    [ValidReservation, NotOnTuesday, InTheFuture, WithinOpenHours, ReservationExists, BookedStatus]

  function NotFoundMessage(id: nat): string
  {
    "Reservation_id " + NatToString(id) + " does not exist."
  }

  /** A guard that leaves `res.locals` alone: it passes exactly when it reports nothing. */
  function Lift(report: Option<Failure>, locals: Locals): (o: Outcome<Locals>)
    ensures o.Pass? <==> report.None?
    ensures o.Pass? ==> o.value == locals
    ensures report.Some? ==> o == Fail(report.value)
  {
    if report.Some? then Fail(report.value) else Pass(locals)
  }

  /** `reservationExists`: loads the stored row into `res.locals.reservation`,
      or answers 404. */
  function ReservationExistsStep(id: nat, rows: map<nat, Body>, locals: Locals): (o: Outcome<Locals>)
    ensures o.Pass? <==> id in rows
    ensures o.Pass? ==> o.value == locals.(reservation := Some(rows[id]))
    ensures o.Fail? ==> o.failure == Rejected(404, NotFoundMessage(id))
  {
    if id in rows then Pass(locals.(reservation := Some(rows[id])))
    else Fail(Rejected(404, NotFoundMessage(id)))
  }

  /** One guard run on the request, the stored rows and the current `res.locals`. */
  function Step(g: Guard, req: Request, c: Clock, rows: map<nat, Body>, locals: Locals): Outcome<Locals>
  {
    match g
    case ValidReservation => Lift(IsValidReservation(req.data), locals)
    case NotOnTuesday => IsNotOnTuesday(req.data, locals)
    case InTheFuture => Lift(IsInTheFuture(req.data, c), locals)
    case WithinOpenHours => Lift(IsWithinOpenHours(req.data), locals)
    case ReservationExists => ReservationExistsStep(req.reservationId, rows, locals)
    case BookedStatus => Lift(HasBookedStatus(req.data, locals), locals)
    case KnownStatus => Lift(IsValidStatus(req.data), locals)
    case NotAlreadyFinished => Lift(IsAlreadyFinished(locals), locals)
  }

  /** The guards run in order, each seeing the `res.locals` the earlier ones
      left; the first failure ends the chain. */
  function Chain(gs: seq<Guard>, req: Request, c: Clock, rows: map<nat, Body>, locals: Locals): Outcome<Locals>
    decreases |gs|
  {
    if |gs| == 0 then Pass(locals)
    else match Step(gs[0], req, c, rows, locals)
      case Fail(f) => Fail(f)
      case Pass(next) => Chain(gs[1..], req, c, rows, next)
  }

  // ---------------------------------------------------------------------------
  // The fold

  /** Running two lists of guards one after the other is running their
      concatenation. */
  lemma {:induction false} ChainAppend(a: seq<Guard>, b: seq<Guard>, req: Request, c: Clock,
                                       rows: map<nat, Body>, locals: Locals)
    ensures Chain(a + b, req, c, rows, locals)
         == match Chain(a, req, c, rows, locals)
            case Fail(f) => Fail(f)
            case Pass(next) => Chain(b, req, c, rows, next)
    decreases |a|
  {
    if |a| == 0 {
      assert a + b == b;
    } else {
      assert (a + b)[0] == a[0] && (a + b)[1..] == a[1..] + b;
      match Step(a[0], req, c, rows, locals)
      case Fail(f) =>
      case Pass(next) => ChainAppend(a[1..], b, req, c, rows, next);
    }
  }

  /** A chain fails with f exactly when some guard fails with f after every
      guard before it has passed. */
  lemma ChainFailsAtFirst(gs: seq<Guard>, req: Request, c: Clock,
                          rows: map<nat, Body>, locals: Locals, f: Failure)
    ensures Chain(gs, req, c, rows, locals) == Fail(f)
        <==> exists i :: 0 <= i < |gs| && Chain(gs[..i], req, c, rows, locals).Pass?
                         && Step(gs[i], req, c, rows, Chain(gs[..i], req, c, rows, locals).value) == Fail(f)
  {
    if Chain(gs, req, c, rows, locals) == Fail(f) {
      var i := FirstFailure(gs, req, c, rows, locals);
    }
    forall i | 0 <= i < |gs| && Chain(gs[..i], req, c, rows, locals).Pass?
               && Step(gs[i], req, c, rows, Chain(gs[..i], req, c, rows, locals).value) == Fail(f)
      ensures Chain(gs, req, c, rows, locals) == Fail(f)
    {
      FailureStopsChain(gs, i, req, c, rows, locals);
    }
  }

  /** A guard that fails after all before it passed ends the chain with its failure. */
  lemma FailureStopsChain(gs: seq<Guard>, i: nat, req: Request, c: Clock, rows: map<nat, Body>, locals: Locals)
    requires i < |gs| && Chain(gs[..i], req, c, rows, locals).Pass?
    requires Step(gs[i], req, c, rows, Chain(gs[..i], req, c, rows, locals).value).Fail?
    ensures Chain(gs, req, c, rows, locals) == Step(gs[i], req, c, rows, Chain(gs[..i], req, c, rows, locals).value)
  {
    ChainAppend(gs[..i], gs[i..], req, c, rows, locals);
    assert gs[..i] + gs[i..] == gs;
    assert gs[i..] == [gs[i]] + gs[i + 1..];
    ChainCons(gs[i], gs[i + 1..], req, c, rows, Chain(gs[..i], req, c, rows, locals).value);
  }

  /** The index of the guard at which a failing chain stops. */
  lemma {:induction false} FirstFailure(gs: seq<Guard>, req: Request, c: Clock,
                                        rows: map<nat, Body>, locals: Locals) returns (i: nat)
    requires Chain(gs, req, c, rows, locals).Fail?
    ensures i < |gs| && Chain(gs[..i], req, c, rows, locals).Pass?
    ensures Step(gs[i], req, c, rows, Chain(gs[..i], req, c, rows, locals).value)
         == Chain(gs, req, c, rows, locals)
    decreases |gs|
  {
    var first := Step(gs[0], req, c, rows, locals);
    if first.Fail? {
      i := 0;
      assert gs[..0] == [];
    } else {
      var j := FirstFailure(gs[1..], req, c, rows, first.value);
      i := j + 1;
      assert gs[..i] == [gs[0]] + gs[1..][..j];
      assert gs[i] == gs[1..][j];
      ChainCons(gs[0], gs[1..][..j], req, c, rows, locals);
    }
  }

  // ---------------------------------------------------------------------------
  // The routes

  /** Which guard can answer 404: only `reservationExists`; every other
      rejection is a 400. */
  lemma {:induction false} FieldErrorsAre400(data: Body, fields: seq<string>)
    ensures FirstFieldError(data, fields).Some? && FirstFieldError(data, fields).value.Rejected?
            ==> FirstFieldError(data, fields).value.status == 400
    decreases |fields|
  {
    if |fields| > 0 { FieldErrorsAre400(data, fields[1..]); }
  }

  lemma OnlyReservationExistsAnswers404(g: Guard, req: Request, c: Clock, rows: map<nat, Body>, locals: Locals)
    requires g != ReservationExists
    ensures Step(g, req, c, rows, locals).Fail? && Step(g, req, c, rows, locals).failure.Rejected?
            ==> Step(g, req, c, rows, locals).failure.status == 400
  {
    match g
    case ValidReservation =>
      if req.data.Some? { FieldErrorsAre400(req.data.value, ReservationFields); }
    case _ =>
  }

  /** Running a one-guard list in front of another. */
  lemma ChainCons(g: Guard, gs: seq<Guard>, req: Request, c: Clock, rows: map<nat, Body>, l: Locals)
    ensures Chain([g] + gs, req, c, rows, l)
         == if Step(g, req, c, rows, l).Fail? then Step(g, req, c, rows, l)
            else Chain(gs, req, c, rows, Step(g, req, c, rows, l).value)
  {
    assert ([g] + gs)[0] == g && ([g] + gs)[1..] == gs;
  }

  /** The checks on the body shared by `create` and `modify`: the fields, then
      the closed day. Neither loads a stored row. */
  lemma BodyChecksPass(req: Request, c: Clock, rows: map<nat, Body>)
    ensures Chain([ValidReservation, NotOnTuesday], req, c, rows, NoLocals).Pass?
        <==> IsValidReservation(req.data).None? && IsNotOnTuesday(req.data, NoLocals).Pass?
    ensures Chain([ValidReservation, NotOnTuesday], req, c, rows, NoLocals).Pass?
        ==> Chain([ValidReservation, NotOnTuesday], req, c, rows, NoLocals).value.reservation.None?
  {
  }

  /** Two guards that only report, one after the other: the pair passes when
      neither reports, and then leaves `res.locals` alone. */
  lemma TwoReportsPass(g1: Guard, g2: Guard, req: Request, c: Clock, rows: map<nat, Body>, l: Locals,
                       r1: Option<Failure>, r2: Option<Failure>)
    requires Step(g1, req, c, rows, l) == Lift(r1, l) && Step(g2, req, c, rows, l) == Lift(r2, l)
    ensures Chain([g1, g2], req, c, rows, l) == if r1.Some? then Fail(r1.value) else Lift(r2, l)
  {
    assert [g1, g2] == [g1] + [g2] && [g2] == [g2] + [];
    ChainCons(g1, [g2], req, c, rows, l);
    ChainCons(g2, [], req, c, rows, l);
  }

  /** The time checks shared by `create` and `modify`, not in the past and then
      within the opening hours, pass exactly when neither reports, and leave
      `res.locals` as they found it. */
  lemma TimeChecksPass(req: Request, c: Clock, rows: map<nat, Body>, l: Locals)
    ensures Chain([InTheFuture, WithinOpenHours], req, c, rows, l)
         == if IsInTheFuture(req.data, c).Some? then Fail(IsInTheFuture(req.data, c).value)
            else Lift(IsWithinOpenHours(req.data), l)
  {
    StepReports(InTheFuture, req, c, rows, l);
    StepReports(WithinOpenHours, req, c, rows, l);
    TwoReportsPass(InTheFuture, WithinOpenHours, req, c, rows, l, IsInTheFuture(req.data, c), IsWithinOpenHours(req.data));
  }

  /** The guards that only report, and what each reports. */
  lemma StepReports(g: Guard, req: Request, c: Clock, rows: map<nat, Body>, l: Locals)
    ensures g == InTheFuture ==> Step(g, req, c, rows, l) == Lift(IsInTheFuture(req.data, c), l)
    ensures g == WithinOpenHours ==> Step(g, req, c, rows, l) == Lift(IsWithinOpenHours(req.data), l)
  {
  }

  /** `hasBookedStatus` with nothing loaded reads the status of the body. */
  lemma BodyStatusChecked(req: Request, c: Clock, rows: map<nat, Body>, l: Locals)
    requires l.reservation.None?
    ensures Chain([BookedStatus], req, c, rows, l).Pass?
        <==> req.data.Some? && ParseStatus(Get(req.data.value, "status")) in {None, Some(Booked)}
  {
  }

  /** After `reservationExists`, `hasBookedStatus` reads the status of the stored row. */
  lemma StoredStatusChecked(req: Request, c: Clock, rows: map<nat, Body>, l: Locals)
    ensures Chain([ReservationExists, BookedStatus], req, c, rows, l).Pass?
        <==> req.reservationId in rows
             && ParseStatus(Get(rows[req.reservationId], "status")) in {None, Some(Booked)}
  {
  }

  /** After the body checks, `modify` answers 404 exactly for an unknown id. */
  lemma StoredChecksAnswer404(req: Request, c: Clock, rows: map<nat, Body>, l: Locals)
    ensures (Chain([ReservationExists, BookedStatus], req, c, rows, l).Fail?
             && Chain([ReservationExists, BookedStatus], req, c, rows, l).failure.Rejected?
             && Chain([ReservationExists, BookedStatus], req, c, rows, l).failure.status == 404)
        <==> req.reservationId !in rows
  {
  }

  /** A new reservation is accepted exactly when every guard of the create
      route passes; `hasBookedStatus` then reads the status of the body, since
      nothing has been loaded from the store, and refuses only seated,
      finished and cancelled. */
  lemma CreatePassesExactly(req: Request, c: Clock, rows: map<nat, Body>)
    ensures Chain(CreateGuards, req, c, rows, NoLocals).Pass?
        <==> IsValidReservation(req.data).None? && IsNotOnTuesday(req.data, NoLocals).Pass?
             && IsInTheFuture(req.data, c).None? && IsWithinOpenHours(req.data).None?
             && req.data.Some? && ParseStatus(Get(req.data.value, "status")) in {None, Some(Booked)}
  {
    var p1, p2, p3 := [ValidReservation, NotOnTuesday], [InTheFuture, WithinOpenHours], [BookedStatus];
    assert CreateGuards == p1 + (p2 + p3);
    ChainAppend(p1, p2 + p3, req, c, rows, NoLocals);
    BodyChecksPass(req, c, rows);
    var o := Chain(p1, req, c, rows, NoLocals);
    if o.Pass? {
      ChainAppend(p2, p3, req, c, rows, o.value);
      TimeChecksPass(req, c, rows, o.value);
      BodyStatusChecked(req, c, rows, o.value);
    }
  }

  /** On a complete, well-formed body with a zero-padded `HH:MM` time and a
      four-digit year, a new reservation is accepted exactly when its time is a
      valid clock time, it is not a Tuesday, not in the past, within
      10:30..21:30, and the body's status is absent or anything other than
      seated, finished and cancelled. */
  lemma CreateAcceptsWellFormed(req: Request, c: Clock, rows: map<nat, Body>, d: Date, hh: string, mm: string)
    requires IsRealClock(c) && 1000 <= c.year <= 9999
    requires req.data.Some?
    requires Truthy(Get(req.data.value, "first_name")) && Truthy(Get(req.data.value, "last_name"))
    requires Truthy(Get(req.data.value, "mobile_number"))
    requires Get(req.data.value, "people").Number? && Get(req.data.value, "people").n != 0
    requires Get(req.data.value, "reservation_date").Str?
    requires ParseIsoDate(Get(req.data.value, "reservation_date").s) == Some(d)
    requires Get(req.data.value, "reservation_date").s != "1970-01-01"
    requires Get(req.data.value, "reservation_time") == Str(hh + ":" + mm)
    requires |hh| == 2 && |mm| == 2 && IsDigits(hh) && IsDigits(mm)
    ensures Chain(CreateGuards, req, c, rows, NoLocals).Pass?
        <==> && 1 <= DigitsValue(hh) <= 23 && DigitsValue(mm) <= 59
             && Weekday(d) != 2
             && !IsPast(d, DigitsValue(hh), DigitsValue(mm), c)
             && 10 * 60 + 30 <= 60 * DigitsValue(hh) + DigitsValue(mm) <= 21 * 60 + 30
             && ParseStatus(Get(req.data.value, "status")) in {None, Some(Booked)}
  {
    var b := req.data.value;
    var t := hh + ":" + mm;
    CreatePassesExactly(req, c, rows);
    ValidReservationExactly(b);
    ValidateTimeOnDigits(hh, mm);
    TuesdayRejected(b, NoLocals, d);
    PaddedTimeShape(hh, mm);
    FutureCheckIsChronological(b, c, d, t);
    if DigitsValue(mm) < 60 {
      OpenHoursWindow(b, hh, mm);
    }
  }

  /** The checks of `modify` split at `reservationExists`. */
  lemma ModifySplits(req: Request, c: Clock, rows: map<nat, Body>)
    ensures ModifyGuards[..4] == [ValidReservation, NotOnTuesday] + [InTheFuture, WithinOpenHours]
    ensures Chain(ModifyGuards, req, c, rows, NoLocals)
         == if Chain(ModifyGuards[..4], req, c, rows, NoLocals).Fail? then Chain(ModifyGuards[..4], req, c, rows, NoLocals)
            else Chain([ReservationExists, BookedStatus], req, c, rows, Chain(ModifyGuards[..4], req, c, rows, NoLocals).value)
  {
    assert ModifyGuards == ModifyGuards[..4] + [ReservationExists, BookedStatus];
    ChainAppend(ModifyGuards[..4], [ReservationExists, BookedStatus], req, c, rows, NoLocals);
  }

  /** `modify` answers 404 for an unknown id only once the field, Tuesday,
      future and hours checks have all passed: no earlier guard answers 404. */
  lemma ModifyNotFoundOnlyAfterChecks(req: Request, c: Clock, rows: map<nat, Body>)
    ensures (Chain(ModifyGuards, req, c, rows, NoLocals).Fail?
             && Chain(ModifyGuards, req, c, rows, NoLocals).failure.Rejected?
             && Chain(ModifyGuards, req, c, rows, NoLocals).failure.status == 404)
        <==> Chain(ModifyGuards[..4], req, c, rows, NoLocals).Pass? && req.reservationId !in rows
  {
    ModifySplits(req, c, rows);
    var pre := ModifyGuards[..4];
    var o := Chain(pre, req, c, rows, NoLocals);
    if o.Fail? {
      var i := FirstFailure(pre, req, c, rows, NoLocals);
      OnlyReservationExistsAnswers404(pre[i], req, c, rows, Chain(pre[..i], req, c, rows, NoLocals).value);
    } else {
      StoredChecksAnswer404(req, c, rows, o.value);
    }
  }

  /** `modify` succeeds exactly when the checks on the body pass, the id exists
      and the STORED status is absent or anything other than seated, finished
      and cancelled; the status in the body plays no part. */
  lemma ModifyChecksStoredStatus(req: Request, c: Clock, rows: map<nat, Body>)
    ensures Chain(ModifyGuards, req, c, rows, NoLocals).Pass?
        <==> Chain(ModifyGuards[..4], req, c, rows, NoLocals).Pass? && req.reservationId in rows
             && ParseStatus(Get(rows[req.reservationId], "status")) in {None, Some(Booked)}
  {
    ModifySplits(req, c, rows);
    var o := Chain(ModifyGuards[..4], req, c, rows, NoLocals);
    if o.Pass? {
      StoredStatusChecked(req, c, rows, o.value);
    }
  }

  /** A status update succeeds exactly when the id exists, the requested status
      is one of the four, and the stored status is not finished. */
  lemma UpdateAcceptsExactly(req: Request, c: Clock, rows: map<nat, Body>)
    ensures Chain(UpdateGuards, req, c, rows, NoLocals).Pass?
        <==> req.reservationId in rows && req.data.Some?
             && ParseStatus(Get(req.data.value, "status")).Some?
             && ParseStatus(Get(rows[req.reservationId], "status")) != Some(Finished)
  {
  }

  /** A chain that starts with `isValidReservation` passes only with a body. */
  lemma ValidatedHasData(gs: seq<Guard>, req: Request, c: Clock, rows: map<nat, Body>)
    requires |gs| > 0 && gs[0] == ValidReservation
    requires Chain(gs, req, c, rows, NoLocals).Pass?
    ensures req.data.Some?
  {
  }

  /** A finished reservation can be neither updated nor modified again. */
  lemma FinishedIsTerminal(req: Request, c: Clock, rows: map<nat, Body>)
    requires req.reservationId in rows && Get(rows[req.reservationId], "status") == Str("finished")
    ensures Chain(UpdateGuards, req, c, rows, NoLocals).Fail?
    ensures Chain(ModifyGuards, req, c, rows, NoLocals).Fail?
  {
    assert ParseStatus(Get(rows[req.reservationId], "status")) == Some(Finished);
    UpdateAcceptsExactly(req, c, rows);
    ModifyChecksStoredStatus(req, c, rows);
  }

  /** No other transition is restricted: a cancelled reservation can be booked
      again, and a booked one finished directly. */
  lemma TransitionsNotRestricted(id: nat, c: Clock, rows: map<nat, Body>)
    requires id in rows
    ensures Get(rows[id], "status") == Str("cancelled")
            ==> Chain(UpdateGuards, Request(id, Some(map["status" := Str("booked")])), c, rows, NoLocals).Pass?
    ensures Get(rows[id], "status") == Str("booked")
            ==> Chain(UpdateGuards, Request(id, Some(map["status" := Str("finished")])), c, rows, NoLocals).Pass?
  {
    UpdateAcceptsExactly(Request(id, Some(map["status" := Str("booked")])), c, rows);
    UpdateAcceptsExactly(Request(id, Some(map["status" := Str("finished")])), c, rows);
  }

  // ---------------------------------------------------------------------------
  // Running the routes over the store

  /** Express running a route's guards: each middleware in turn, with
      `isValidReservation` as its field loop and `reservationExists` reading
      the store. Nothing is written. */
  method RunGuards(store: ReservationStore, guards: seq<Guard>, req: Request, c: Clock) returns (o: Outcome<Locals>)
    ensures o == Chain(guards, req, c, store.rows, NoLocals)
  {
    var locals := NoLocals;
    var i := 0;
    while i < |guards|
      invariant 0 <= i <= |guards|
      invariant Chain(guards, req, c, store.rows, NoLocals) == Chain(guards[i..], req, c, store.rows, locals)
    {
      var step: Outcome<Locals>;
      match guards[i] {
        case ValidReservation =>
          var error := ValidateReservation(req.data);
          step := Lift(error, locals);
        case ReservationExists =>
          var row := store.Read(req.reservationId);
          if row.Some? {
            step := Pass(locals.(reservation := row));
          } else {
            step := Fail(Rejected(404, NotFoundMessage(req.reservationId)));
          }
        case _ =>
          step := Step(guards[i], req, c, store.rows, locals);
      }
      assert step == Step(guards[i], req, c, store.rows, locals);
      assert guards[i..][1..] == guards[i + 1..];
      match step {
        case Fail(f) =>
          return Fail(f);
        case Pass(next) =>
          locals := next;
      }
      i := i + 1;
    }
    o := Pass(locals);
  }

  /** `create`: after the guards, stores the body under a fresh id and answers
      201 with the body and its new `reservation_id`. */
  method CreateRoute(store: ReservationStore, req: Request, c: Clock) returns (reply: Reply)
    requires store.Valid()
    modifies store
    ensures store.Valid()
    ensures var o := Chain(CreateGuards, req, c, old(store.rows), NoLocals);
      if o.Fail? then reply == Refused(o.failure) && store.rows == old(store.rows) && store.nextId == old(store.nextId)
      else req.data.Some?
           && reply == Ok(201, WithId(req.data.value, old(store.nextId)))
           && store.rows == old(store.rows)[old(store.nextId) := WithId(req.data.value, old(store.nextId))]
           && store.nextId == old(store.nextId) + 1
  {
    var o := RunGuards(store, CreateGuards, req, c);
    if o.Fail? {
      return Refused(o.failure);
    }
    ValidatedHasData(CreateGuards, req, c, store.rows);
    var id := store.Create(req.data.value);
    reply := Ok(201, WithId(req.data.value, id));
  }

  /** `read`: answers with the row `reservationExists` loaded. */
  method ReadRoute(store: ReservationStore, req: Request, c: Clock) returns (reply: Reply)
    ensures req.reservationId in store.rows ==> reply == Ok(200, store.rows[req.reservationId])
    ensures req.reservationId !in store.rows
            ==> reply == Refused(Rejected(404, NotFoundMessage(req.reservationId)))
  {
    var o := RunGuards(store, ReadGuards, req, c);
    if o.Fail? {
      return Refused(o.failure);
    }
    reply := Ok(200, o.value.reservation.value);
  }

  /** `update`: after the guards, sets the stored status to the requested one
      and answers with the updated row. Only that row's status changes. */
  method UpdateRoute(store: ReservationStore, req: Request, c: Clock) returns (reply: Reply)
    requires store.Valid()
    modifies store
    ensures store.Valid() && store.nextId == old(store.nextId)
    ensures var o := Chain(UpdateGuards, req, c, old(store.rows), NoLocals);
      if o.Fail? then reply == Refused(o.failure) && store.rows == old(store.rows)
      else req.reservationId in old(store.rows) && req.data.Some?
           && var row := WithStatus(old(store.rows)[req.reservationId], Get(req.data.value, "status"));
           reply == Ok(200, row) && store.rows == old(store.rows)[req.reservationId := row]
  {
    var o := RunGuards(store, UpdateGuards, req, c);
    if o.Fail? {
      return Refused(o.failure);
    }
    UpdateAcceptsExactly(req, c, store.rows);
    var row := store.UpdateStatus(req.reservationId, Get(req.data.value, "status"));
    reply := Ok(200, row.value);
  }

  /** `modify`: after the guards, writes the body's columns into the stored row
      and answers with the body carrying the row's `reservation_id`. */
  method ModifyRoute(store: ReservationStore, req: Request, c: Clock) returns (reply: Reply)
    requires store.Valid()
    modifies store
    ensures store.Valid() && store.nextId == old(store.nextId)
    ensures var o := Chain(ModifyGuards, req, c, old(store.rows), NoLocals);
      if o.Fail? then reply == Refused(o.failure) && store.rows == old(store.rows)
      else req.reservationId in old(store.rows) && req.data.Some?
           && reply == Ok(200, WithId(req.data.value, req.reservationId))
           && store.rows == old(store.rows)[req.reservationId := Merge(old(store.rows)[req.reservationId], req.data.value, req.reservationId)]
  {
    var o := RunGuards(store, ModifyGuards, req, c);
    if o.Fail? {
      return Refused(o.failure);
    }
    ValidatedHasData(ModifyGuards, req, c, store.rows);
    ModifyChecksStoredStatus(req, c, store.rows);
    var row := store.Modify(req.reservationId, req.data.value);
    reply := Ok(200, WithId(req.data.value, req.reservationId));
  }

  /** A reservation that `create` accepted is what `read` then answers for its id. */
  method CreateThenRead(store: ReservationStore, req: Request, c: Clock) returns (created: Reply, read: Reply)
    requires store.Valid()
    modifies store
    ensures created.Ok? ==> read == created.(status := 200)
  {
    var id := store.nextId;
    created := CreateRoute(store, req, c);
    if created.Ok? {
      read := ReadRoute(store, Request(id, None), c);
    } else {
      read := created;
    }
  }
}
