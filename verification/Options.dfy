/** The one optional type of the project: a pointer that may be NULL, a slot that may be empty. */
module Options {
  datatype Option<+T> = None | Some(value: T)
}
