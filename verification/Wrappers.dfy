/** The optional value used wherever the compiler has an `Option`. */
module Wrappers {
  datatype Option<+T> = None | Some(value: T)
}
