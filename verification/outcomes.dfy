/** Optional values and the failures the model can report. */
module Outcomes {

  /** An optional value; `None` plays the role of the not-a-number "unset" marker. */
  datatype Option<+T> = None | Some(value: T)

  /** The distinct, matchable failure conditions of the model. */
  datatype Error =
    | BackwardsTimescales  // "The short-timescale must be d1"
    | EmptyDrivers         // the forcing series has no entries
    | DriversNotSet        // stepping before any forcing was bound
    | NotReset             // stepping before the outputs were allocated
    | AlreadyComplete      // stepping past the last forcing index
    | DivisionByZero       // a parameter combination that divides by zero

  /** Either a value or the failure that prevented computing it. */
  datatype Result<+T> = Ok(value: T) | Err(error: Error)
}
