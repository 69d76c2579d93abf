/** The optional value the source expresses with a null pointer. */
module Wrappers {

  datatype Option<+T> = None | Some(value: T)

}
