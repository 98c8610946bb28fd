/** An optional result. */
module Options {
  datatype Option<T> = None | Some(value: T)
}
