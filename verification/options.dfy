/** The optional value used for steps that may or may not produce something. */
module Options {

  datatype Option<+T> = None | Some(value: T)
}
