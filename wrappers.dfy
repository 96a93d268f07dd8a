/** An optional value, standing for JavaScript's `null` or a missing property. */
module Wrappers {

  datatype Option<+T> = None | Some(value: T)
}
