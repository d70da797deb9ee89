/** The optional-value datatype used where the analyzer either produces a
    value or stops with a Python exception. */
module Wrappers {

  datatype Option<+T> = None | Some(value: T)
}
