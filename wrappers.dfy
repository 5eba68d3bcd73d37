/** The optional value used for results that may be missing: a failed fetch,
    a storage slot that holds nothing. */
module Wrappers {
  datatype Option<+T> = None | Some(value: T)
}
