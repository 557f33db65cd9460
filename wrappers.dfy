/** Rust's `Option<T>`: the pending cell of an `AddController` and the return of `next()`. */
module Wrappers {

  datatype Option<+T> = None | Some(value: T)
}
