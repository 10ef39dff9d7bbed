/** The conventional Some/None datatype, used for absent values. */
module Options {
  datatype Option<+T> = None | Some(value: T)
}
