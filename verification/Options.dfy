/** NULL or a value, for the source's nullable pointers. */
module Options {
  datatype Option<+T> = None | Some(value: T)
}
