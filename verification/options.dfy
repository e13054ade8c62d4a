/** The optional value used where the Ruby code passes `nil` or a value. */
module Options {

  datatype Option<+T> = None | Some(value: T)
}
