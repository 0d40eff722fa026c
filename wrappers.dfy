/** The optional value used for the source's `None` returns and for the
    calls that end in an exception. */
module Wrappers {
  datatype Option<+T> = None | Some(value: T)
}
