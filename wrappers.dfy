/** Option and Result, used for the parent link of a node and for the
    failure of a change-log slice. */
module Wrappers {

  datatype Option<+T> = None | Some(value: T)

  datatype Result<+R, +E> = Ok(value: R) | Err(error: E)
}
