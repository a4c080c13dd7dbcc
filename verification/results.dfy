/** The optional value shared by the driver model. */
module Results {

  /** A value that may be absent: used where the driver silently does nothing. */
  datatype Option<+T> = None | Some(value: T)
}
