/** The optional value used for absent parent references and root actions. */
module Wrappers {

  datatype Option<+T> = None | Some(value: T)
}
