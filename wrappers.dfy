/** Rust's `Option`, used for the results of searches and parses. */
module Wrappers {
  datatype Option<+T> = None | Some(value: T)
}
