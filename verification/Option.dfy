/** A value that may be missing: a null pointer, a file that does not open, a search that finds nothing. */
module Options {
  datatype Option<+T> = None | Some(value: T)
}
