/** A value that may be absent: `null` for a mode, NaN for a coerced measurement. */
module Wrappers {

  datatype Option<+T> = None | Some(value: T)
}
