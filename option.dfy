/** The optional value used for parses that may fail and for a data file that may not load. */
module Options {
  datatype Option<+T> = None | Some(value: T)
}
