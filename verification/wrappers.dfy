/** Option and Result values, and the Python exception kinds that the
    scripts raise when an input is malformed. */
module Wrappers {

  datatype Option<+T> = None | Some(value: T)

  /** The exceptions the modelled scripts can raise on bad input. */
  datatype Exception =
    | ZeroDivisionError   // `x / 0` on a float or an empty sample list
    | IndexError          // `row[i]` past the end of a row or line
    | ValueError          // `float(text)` on text that is not a number, `list.remove(x)` with x absent

  /** The outcome of a step that either yields a value or raises. */
  datatype Result<+T> = Ok(value: T) | Err(error: Exception)
}
