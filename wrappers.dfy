/** Rust's `Option`, used for checked lookups and optional components. */
module Wrappers {
  datatype Option<+T> = None | Some(value: T)
}
