/** Values that may be absent: Go's `value, ok` results and nil pointers. */
module Options {

  datatype Option<+T> = None | Some(value: T)
}
