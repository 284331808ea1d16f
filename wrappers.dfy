/** The optional results used where the source returns null or an empty vector. */
module Wrappers {
  datatype Option<T> = None | Some(value: T)
}
