/** Optional values, standing in for Rust's `Option`, used for lookups that may find nothing. */
module Wrappers {

  /** The conventional Some/None datatype, standing in for Rust's `Option`. */
  datatype Option<+T> = None | Some(value: T)
}
