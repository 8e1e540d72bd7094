/** The optional value used for the tracker's `None`-able fields and search results. */
module Optional {
  datatype Option<+T> = None | Some(value: T)
}
