/** A value that may be missing: the NULL and the error returns of the C. */
module Options {
  datatype Option<+T> = None | Some(value: T)
}
