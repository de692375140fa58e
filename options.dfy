/** An optional value, for Python's `Optional[...]` and `None`. */
module Options {

  datatype Option<T> = None | Some(value: T)
}
