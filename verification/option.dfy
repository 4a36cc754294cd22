/** A value that may be absent: a C pointer that may be NULL. */
module Maybe {

  datatype Option<+T> = None | Some(value: T)
}
