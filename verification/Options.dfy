/** A value that may be absent: the source's `undefined`, `null` and caught errors. */
module Options {
  datatype Option<+T> = None | Some(value: T)
}
