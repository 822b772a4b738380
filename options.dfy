/** The optional value used wherever the script either produces a result or
    falls through to "nothing here". */
module Options {
  datatype Option<+T> = None | Some(value: T)
}
