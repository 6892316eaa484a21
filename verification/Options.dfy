/** A value that may be missing: None in the programs. */
module Options {
  datatype Option<T> = None | Some(value: T)
}
