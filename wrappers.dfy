/** Optional values and the Python exceptions the core can raise. */
module Wrappers {

  datatype Option<+T> = None | Some(value: T)

  /** The exceptions `agro_explorer.py` can raise on the modelled paths. */
  datatype Exception =
    | OverflowError       // datetime arithmetic outside years 1..9999
    | TypeError           // iteration over a 0-d NumPy array
    | UnicodeDecodeError  // a byte that is not UTF-8 on its own
    | IndexError          // a boolean mask whose length differs from the array's

  /** A value, or the exception that was raised instead. */
  datatype Result<+T> = Ok(value: T) | Err(error: Exception)
}
