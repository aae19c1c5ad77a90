/** Option: the model's stand-in for JavaScript's `null` / no-match results. */
module Wrappers {
  datatype Option<+T> = None | Some(value: T)
}
