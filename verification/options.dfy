/** The optional value that Rust's `Option<T>` stands for. */
module Options {
  datatype Option<+T> = None | Some(value: T)
}
