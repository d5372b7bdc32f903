/** A value that may be missing: a C pointer that may be null. */
module Options {
  datatype Option<T> = Null | Some(value: T)
}
