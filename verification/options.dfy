/** The usual optional value: an absent result, or one value. */
module Options {
  datatype Option<+T> = None | Some(value: T)
}
