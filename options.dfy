/** An optional value: `None` where the Go code finds nothing. */
module Options {
  datatype Option<+T> = None | Some(value: T)
}
