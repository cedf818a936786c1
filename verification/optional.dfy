/** A value that may be absent: the model's stand-in for Go's `(value, ok)` and `(value, err)` pairs. */
module Optional {

  datatype Option<+T> = None | Some(value: T)
}
