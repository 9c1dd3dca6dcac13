/** A value that may be missing: the source's nil. */
module Options {
  datatype Option<+T> = None | Some(value: T)
}
