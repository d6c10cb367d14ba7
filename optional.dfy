/** A value that may be absent: a JSON key that a record may lack, or a parse that may fail. */
module Optional {

  datatype Option<+T> = None | Some(value: T)
}
