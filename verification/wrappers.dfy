/** An optional value: the source's optional fields and absent results. */
module Wrappers {

  datatype Option<+T> = None | Some(value: T)
}
