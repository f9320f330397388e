/** The optional value used where the scripts use `None`. */
module Wrappers {
  datatype Option<T> = None | Some(value: T)
}
