/** The optional values the Python code writes as `None` or a value. */
module Options {
  datatype Option<+T> = None | Some(value: T)
}
