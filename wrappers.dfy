/** The conventional optional value: None stands for PHP's null. */
module Wrappers {

  datatype Option<+T> = None | Some(value: T)
}
