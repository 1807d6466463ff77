/** The optional value that Rust's `Option` carries; the parser's failures are its `None`. */
module Wrappers {

  datatype Option<+T> = None | Some(value: T)
}
