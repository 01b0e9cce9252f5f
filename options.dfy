/** The optional value that stands for SQL NULL, Python `None` and "no row". */
module Options {
  datatype Option<T> = None | Some(value: T)
}
