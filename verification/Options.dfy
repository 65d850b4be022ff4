/** Values that may be absent: Go's nil pointers, missing map keys and nil errors. */
module Options {
  datatype Option<+T> = None | Some(value: T)
}
