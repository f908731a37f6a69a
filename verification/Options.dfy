/** The result of an operation that may have none: a null pointer, or a call of `err` that ends the run. */
module Options {
  datatype Option<+T> = None | Some(value: T)
}
