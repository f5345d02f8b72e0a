/** The conventional optional value, standing for JavaScript's `undefined`/`null` alternatives. */
module Wrappers {
  datatype Option<+T> = None | Some(value: T)
}
