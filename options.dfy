/** The optional value used for "not found" results (a null element in the script). */
module Options {
  datatype Option<+T> = None | Some(value: T)
}
