/** An optional value: `None` where the source has no answer. */
module Options {
  datatype Option<T> = None | Some(value: T)
}
