/** A value that may be missing: a failed parse, a null row, an uncached string. */
module Options {
  datatype Option<+T> = None | Some(value: T)
}
