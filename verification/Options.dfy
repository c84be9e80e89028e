/** A value that may be missing: Python's `None`, SQL's NULL, JavaScript's null. */
module Options {
  datatype Option<+T> = None | Some(value: T)
}
