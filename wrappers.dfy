/** Rust's `Option<T>`, the result of a cache lookup. */
module Wrappers {

  datatype Option<T> = None | Some(value: T)
}
