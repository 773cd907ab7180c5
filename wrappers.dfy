/** Option, for the places where the script either produces a value or dies. */
module Wrappers {

  datatype Option<+T> = None | Some(value: T)

}
