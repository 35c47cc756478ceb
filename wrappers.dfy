/** The Some/None datatype used for Python's `None` results and for the
    "an exception was logged and swallowed" outcome. */
module Wrappers {
  datatype Option<+T> = None | Some(value: T)
}
