/** The Some/None datatype used for Python's Optional values and for results
    that can be missing. */
module Wrappers {

  datatype Option<+T> = None | Some(value: T)
}
