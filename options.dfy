/** The optional result of the readers: a value, or nothing when the text
    does not have the expected form. */
module Options {
  datatype Option<+T> = None | Some(value: T)
}
