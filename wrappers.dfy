/** Option, for values JavaScript leaves `undefined` or `null`. */
module Wrappers {

  datatype Option<+T> = None | Some(value: T)
}
