/** The optional value that the Rust code writes as `Option<T>`. */
module Wrappers {

  datatype Option<+T> = None | Some(value: T)
}
