/** An optional value: `None` stands for `undefined`, `null` or Rust's `None`. */
module Option {
  datatype Option<+T> = None | Some(value: T)
}
