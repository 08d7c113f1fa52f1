/** The nullable value of the source, made explicit. */
module Options {

  datatype Option<+T> = None | Some(value: T)
}
