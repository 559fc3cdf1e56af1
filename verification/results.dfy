/** Failure-carrying values shared by every stage of the model: the Kotlin
    code signals failure with exceptions (NumberFormatException,
    IndexOutOfBoundsException, DateTimeParseException,
    IllegalArgumentException); here each becomes an `Err` with a kind. */
module Results {

  datatype Option<+T> = None | Some(value: T)

  /** The exception kinds the builders can raise, with the data that identifies the culprit. */
  datatype Error =
    | IndexOutOfBounds(index: int, size: int)   // values[i] on a comma-split entry that is too short
    | NumberFormat(text: string)                // String.toInt() on text that is not a 32-bit integer
    | TimeFormat(text: string)                  // LocalTime.parse() on text that is not a time of day
    | InvalidRouteType(code: int)               // a route type code RouteTypes.getById does not know
    | InvalidDaysLength(length: int)            // a days-active bit string whose length is not 7
    | MissingStop(stopId: int)                  // a route refers to a stop absent from the stops map
    | MissingRoute(routeId: int)                // a route entry refers to a route absent from the routes map
    | MissingCalendar(calendarId: int)          // a schedule refers to a calendar absent from the calendars map
    | Transport(url: string)                    // the network fetch of an endpoint failed

  datatype Result<+T> = Ok(value: T) | Err(error: Error) {

    predicate IsFailure() {
      Err?
    }

    function PropagateFailure<U>(): Result<U>
      requires Err?
    {
      Err(error)
    }

    function Extract(): T
      requires Ok?
    {
      value
    }
  }

  /** Turns an absent value into the given failure. */
  function OrFail<T>(o: Option<T>, e: Error): (r: Result<T>)
    ensures r.Ok? <==> o.Some?
    ensures r.Ok? ==> r.value == o.value
    ensures r.Err? ==> r.error == e
  {
    match o
    case Some(v) => Ok(v)
    case None => Err(e)
  }
}
