/** The optional value that the lookups and parsers of the model return. */
module Options {
  datatype Option<+T> = None | Some(value: T)
}
