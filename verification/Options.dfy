/** The one wrapper type that the other modules share. */
module Options {
  datatype Option<+T> = None | Some(value: T)
}
