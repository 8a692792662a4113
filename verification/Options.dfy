/** The optional values that run through the whole project. */
module Options {
  datatype Option<+T> = None | Some(value: T)
}
