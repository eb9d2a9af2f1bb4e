/** The stock optional value, used for Python's None and for calls that raise. */
module Options {
  datatype Option<+T> = None | Some(value: T)
}
