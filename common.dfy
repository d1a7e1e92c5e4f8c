/** Shared value types of the nutrition assistant model. */
module Common {

  /** A value that may be absent; Python's `None` is `None` here. */
  datatype Option<+T> = None | Some(value: T)
}
