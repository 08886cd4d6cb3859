/** Rust's `Option`, as returned by the `hit` operations. */
module Options {
  datatype Option<T> = None | Some(value: T)
}
