/** The optional value that stands in for Java's nullable return values. */
module Wrappers {
  datatype Option<T> = None | Some(value: T)
}
