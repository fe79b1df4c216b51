/** The optional value used for parse results and for the "bytes remaining" note. */
module Options {

  datatype Option<+T> = None | Some(value: T)

}
