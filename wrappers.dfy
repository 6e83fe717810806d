/** The optional value returned by a substring search (Rust's `Option<usize>`). */
module Wrappers {
  datatype Option<+T> = None | Some(value: T)
}
