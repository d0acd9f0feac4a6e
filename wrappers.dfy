/** The optional value used for the bonus food, which the engine keeps as `null` when absent. */
module Wrappers {

  datatype Option<+T> = None | Some(value: T)
}
