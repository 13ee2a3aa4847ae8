/** The usual optional value, standing for `T | undefined | null` on the JavaScript side. */
module Optional {
  datatype Option<+T> = None | Some(value: T)
}
