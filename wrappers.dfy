/** An optional value, for the operations that may return null. */
module Wrappers {
  datatype Option<T> = None | Some(value: T)
}
