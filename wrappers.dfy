/** The failure-carrying result of a recogniser or of parsing. */
module Wrappers {
  datatype Option<+T> = None | Some(value: T)
}
