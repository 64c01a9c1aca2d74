/** A value that may be absent: a null pointer, a failed conversion, an unset handle. */
module Options {
  datatype Option<+T> = None | Some(value: T)
}
