/** The optional value used wherever the Python code uses `None` for "absent". */
module Options {

  datatype Option<+T> = None | Some(value: T)
}
