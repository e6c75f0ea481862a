/** The absent-or-present value used for a line that does or does not match. */
module Optional {

  datatype Option<+T> = None | Some(value: T)
}
