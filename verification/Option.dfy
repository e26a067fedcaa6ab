/** A pointer or lookup result that may be absent. */
module Option {
  datatype Option<+T> = None | Some(value: T)
}
