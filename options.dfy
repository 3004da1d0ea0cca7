/** An optional value, standing in for a nullable pointer returned by a lookup. */
module Options {
  datatype Option<+T> = None | Some(value: T)
}
