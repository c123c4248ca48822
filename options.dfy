/** The optional value used where the Java code allows `null`. */
module Options {
  datatype Option<+T> = None | Some(value: T)
}
