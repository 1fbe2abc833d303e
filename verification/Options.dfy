/** A value or its absence, for NULL and None. */
module Options {
  datatype Option<+T> = None | Some(value: T)
}
