/** The optional-value datatype used for a parse that may yield NaN. */
module Wrappers {

  datatype Option<+T> = None | Some(value: T)
}
