/** A value that may be absent, as `undefined` is in the original program. */
module Wrappers {
  datatype Option<T> = None | Some(value: T)
}
