/** An optional value: a timestamp that may be invalid, caps that may be
    absent, a warning that may not be raised. */
module Wrappers {
  datatype Option<T> = None | Some(value: T)
}
