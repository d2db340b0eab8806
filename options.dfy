/** An optional value: Python's `None` or an object. */
module Options {

  datatype Option<+T> = None | Some(value: T)
}
