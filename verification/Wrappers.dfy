/** The optional value that several modules use. */
module Wrappers {
  datatype Option<T> = None | Some(value: T)
}
