/** The optional value used wherever the source returns `None` or a regex finds no match. */
module Optional {
  datatype Option<+T> = None | Some(value: T)
}
