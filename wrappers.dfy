/** The optional value used for the nullable references of Avalonia's `Animatable`. */
module Wrappers {
  datatype Option<+T> = None | Some(value: T)
}
