/** The optional value returned by lookups: Rust's `Option`. */
module Wrappers {

  datatype Option<+T> = None | Some(value: T)
}
