/** A value that may be absent: the "no hit" result of an intersection test. */
module Optional {
  datatype Option<+T> = None | Some(value: T)
}
