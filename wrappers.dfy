/** A value that may be absent: a query parameter that was not sent is `None`. */
module Wrappers {
  datatype Option<+T> = None | Some(value: T)
}
