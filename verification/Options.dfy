/** The value-or-None results of the Python functions. */
module Options {
  datatype Option<+T> = None | Some(value: T)
}
