/** A path that may be absent, as returned by the candidate search. */
module Wrappers {

  /** A value that may be absent; stands in for a nullable reference. */
  datatype Option<+T> = None | Some(value: T)
}
