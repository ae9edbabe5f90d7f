/** Result and option types and the Python exceptions the modelled code can raise. */
module Wrappers {

  /** The exceptions the modelled Python code raises on its error paths. */
  datatype Error =
    | ValueError     // int() of a bad piece, date() fields outside the calendar
    | TypeError      // reduce() of nothing, date() with too many or too few fields, a duplicate keyword
    | KeyError       // a missing key in the posted data
    | OverflowError  // date + timedelta past the last date, a date() field beyond a C int
    | DoesNotExist   // MetricKind.objects.get of an unregistered code

  datatype Option<+T> = None | Some(value: T)

  datatype Result<+T> = Ok(value: T) | Err(error: Error)

  /** The outcome of an operation that returns nothing but may raise. */
  datatype Outcome = Pass | Fail(error: Error)
}
