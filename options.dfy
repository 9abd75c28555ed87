/** The optional value used by the reading side of the format. */
module Options {

  datatype Option<+T> = None | Some(value: T)
}
