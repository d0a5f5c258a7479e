/** The optional value used wherever the source stores `None` or an object. */
module Options {
  datatype Option<+T> = None | Some(value: T)
}
