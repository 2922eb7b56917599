/** The optional values used throughout the project. */
module Options {
  datatype Option<+T> = None | Some(value: T)
}
