/** A result that may be missing: the null pointers and error values of the source. */
module Options {
  datatype Option<+T> = None | Some(value: T)
}
