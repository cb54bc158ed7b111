/** A value that may be missing: a null of C or Java. */
module Options {
  datatype Option<+T> = None | Some(value: T)
}
