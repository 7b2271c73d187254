// The stock optional value used for Go's "value, error" and "value, ok" returns.
module Options {
  datatype Option<+T> = None | Some(value: T)
}
