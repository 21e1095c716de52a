/** The optional value the scanner's Python code expresses with None. */
module Options {

  datatype Option<+T> = None | Some(value: T)
}
