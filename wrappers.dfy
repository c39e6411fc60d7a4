/** The optional value that both static cells of the firmware hold. */
module Wrappers {

  datatype Option<+T> = None | Some(value: T)
}
