/** What passes between Express middleware: the argument a guard gives to
    `next`, and `res.locals`, where a guard leaves values for later ones. */
module Middleware {
  import opened Wrappers
  import opened JsValues
  import opened JsDates

  /** `next({status, message})`, or an exception the guard throws, which the
      error boundary forwards to the error handler. */
  datatype Failure = Rejected(status: nat, message: string) | Thrown

  /** A guard either passes control on with a value (`next()`) or stops the
      chain with a failure. */
  datatype Outcome<T> = Pass(value: T) | Fail(failure: Failure)

  /** `res.locals.reservation` (set by `reservationExists`) and
      `res.locals.date` (set by `isNotOnTuesday`). */
  datatype Locals = Locals(reservation: Option<Body>, date: Option<JsDate>)

  const NoLocals: Locals := Locals(None, None)
}
