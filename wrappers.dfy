/** The optional value used wherever the servers test for `None`, a missing
    index or a failed parse. */
module Wrappers {
  datatype Option<T> = None | Some(value: T)
}
