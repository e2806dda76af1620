/** The optional value used for Rust's `Option<Box<Node>>` child links. */
module Wrappers {
  datatype Option<+T> = None | Some(value: T)
}
