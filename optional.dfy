/** The usual Some/None datatype, for operations that may have no value. */
module Optional {

  datatype Option<+T> = None | Some(value: T)

}
