/** Values that may be absent: null pointers, failed searches. */
module Options {
  datatype Option<+T> = None | Some(value: T)
}
