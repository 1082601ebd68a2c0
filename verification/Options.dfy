/** The option type used for Go's `(value, err)` and `(value, ok)` results. */
module Options {
  datatype Option<+T> = None | Some(value: T)
}
