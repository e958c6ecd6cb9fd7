/** An optional value, used where an operation can report that nothing exists. */
module Wrappers {

  datatype Option<+T> = None | Some(value: T)

}
