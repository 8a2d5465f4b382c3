/** The optional value used where the application has `null`, `undefined` or "no match". */
module Options {

  datatype Option<+T> = None | Some(value: T)
}
