/** The optional value used for Go pointers and nullable table columns. */
module Options {
  datatype Option<+T> = None | Some(value: T)
}
