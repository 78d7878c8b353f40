/** A value that may be absent, shared by the models. */
module Wrappers {
  datatype Option<T> = None | Some(value: T)
}
