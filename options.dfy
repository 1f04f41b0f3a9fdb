/** An optional value, for operations of the source that can fail. */
module Options {
  datatype Option<T> = None | Some(value: T)
}
