/** A value that may be absent: a nullable column, a missing key, an unset field. */
module Options {
  datatype Option<+T> = None | Some(value: T)
}
