/** The optional value used for a tween channel that may or may not be pending. */
module Options {

  datatype Option<+T> = None | Some(value: T)
}
