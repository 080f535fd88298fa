/** The optional value used wherever the source uses `None`. */
module Optional {
  datatype Option<+T> = None | Some(value: T)
}
