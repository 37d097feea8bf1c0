/** The optional-value type used for Python's `None`. */
module Options {

  datatype Option<+T> = None | Some(value: T)
}
