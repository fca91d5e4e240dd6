/** The optional-value type used for storage entries and the pending timer. */
module Options {
  datatype Option<+T> = None | Some(value: T)
}
