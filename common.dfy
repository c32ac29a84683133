/** Helper datatypes shared by the frontend models. */
module Common {

  /** An optional value, as Rust's `Option<T>`. */
  datatype Option<+T> = None | Some(value: T)
}
