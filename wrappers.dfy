/** The optional values of the component: a nullable state slot or a missing file. */
module Wrappers {
  datatype Option<+T> = None | Some(value: T)
}
