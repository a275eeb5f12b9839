/** The optional value that Rust's `Option` stands for in the viewer. */
module Wrappers {
  datatype Option<+T> = None | Some(value: T)
}
