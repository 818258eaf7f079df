/** A value that may be missing: a null pointer or a failed result of the C code. */
module Options {
  datatype Option<T> = None | Some(value: T)
}
