/** The optional value used for the write-once sender slot and a connection's close reason. */
module Options {
  datatype Option<+T> = None | Some(value: T)
}
