/** A value or nothing, standing in for a nullable reference. */
module Optional {
  datatype Option<+T> = None | Some(value: T)
}
