/** The optional value a query returns when it may find nothing. */
module Optional {
  datatype Option<T> = None | Some(value: T)
}
