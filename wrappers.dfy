/** An optional value: a file that may be absent, an option that may be unset. */
module Wrappers {
  datatype Option<T> = None | Some(value: T)
}
