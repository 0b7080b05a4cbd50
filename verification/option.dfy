/** An optional value: absent values, and Go's `nil` error. */
module Options {

  datatype Option<+T> = None | Some(value: T)
}
