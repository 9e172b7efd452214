/** Python's `None`-or-value, used for optional arguments and return values. */
module Optional {
  datatype Option<+T> = None | Some(value: T)
}
