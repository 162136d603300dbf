/** A value that may be absent: a JSON key that is missing or of the wrong kind. */
module Wrappers {
  datatype Option<+T> = None | Some(value: T)
}
