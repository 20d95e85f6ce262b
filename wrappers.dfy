/** The optional value the library returns where Rust returns `Option`. */
module Wrappers {
  datatype Option<T> = None | Some(value: T)
}
