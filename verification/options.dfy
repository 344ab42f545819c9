/** The optional value used where the directory may or may not find something. */
module Options {

  datatype Option<+T> = None | Some(value: T)

}
