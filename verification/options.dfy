/** A value that may be absent, as a DOM attribute read with getAttribute may be null. */
module Options {
  datatype Option<+T> = None | Some(value: T)
}
