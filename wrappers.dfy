/** The optional value that stands in for a Java `Integer` that may be `null`. */
module Wrappers {

  datatype Option<+T> = None | Some(value: T)
}
