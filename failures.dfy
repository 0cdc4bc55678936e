/** The exceptions raised by the timestamp and time-range code, and the result types that carry them. */
module Failures {

  /** One constructor per `raise` (or runtime error) the core can reach. */
  datatype Error =
    | Unparsable      // text that does not start with the timestamp pattern (ValueError)
    | OutOfRange      // millisecond count above 59:59:59,999 (ValueError)
    | BadOperand      // `+` with neither an integer nor a Timestamp (ValueError)
    | MissingEnds     // a Timerange whose begin and end are both falsy (ValueError)
    | NotTimestamps   // a Timerange with an end that is not a Timestamp (ValueError)
    | NegativeLength  // len() of a Timerange that ends before it begins (ValueError)
    | DivisionByZero  // partition into zero pieces (ZeroDivisionError)

  datatype Result<T> = Ok(value: T) | Err(error: Error)

  datatype Option<T> = None | Some(value: T)
}
