/** An optional value, for the attributes the source may leave undefined. */
module Options {
  datatype Option<+T> = None | Some(value: T)
}
