/** A value that may be missing: a pointer that may be NULL, or a failure. */
module Optional {
  datatype Option<+T> = None | Some(value: T)
}
