/** The usual Some/None wrapper, used for JavaScript's `undefined` fields. */
module Optional {

  datatype Option<+T> = None | Some(value: T)
}
