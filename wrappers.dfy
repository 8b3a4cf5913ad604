/** The optional value shared by the solvers: Swift's `T?`. */
module Wrappers {
  datatype Option<+T> = None | Some(value: T)
}
