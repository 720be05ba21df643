/** The optional value the editor uses wherever the source holds `null`. */
module Wrappers {
  datatype Option<+T> = None | Some(value: T)
}
