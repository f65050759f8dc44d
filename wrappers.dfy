/** The optional value the scripts express with `undefined`. */
module Wrappers {
  datatype Option<T> = None | Some(value: T)
}
