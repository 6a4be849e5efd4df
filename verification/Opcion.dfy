// A value that may be missing.
module Opcion {
  datatype Option<+T> = None | Some(value: T)
}
