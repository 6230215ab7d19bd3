/** The optional value used for the source's `null` returns. */
module Options {
  datatype Option<+T> = None | Some(value: T)
}
