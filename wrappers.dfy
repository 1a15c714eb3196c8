/** Optional values, results and the Python exception kinds the scripts can raise. */
module Wrappers {

  datatype Option<+T> = None | Some(value: T)

  /** The exceptions the modelled scripts raise on malformed input (they never catch them). */
  datatype PyError =
    | ValueError      // float() of text that is not a number
    | IndexError      // a list index past the end (too few viewBox parts, an unpaired coordinate)
    | ZeroDivisionError

  datatype Result<+T> = Success(value: T) | Failure(error: PyError)
}
