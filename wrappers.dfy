/** The optional value used wherever the source returns `None` or raises
    and catches an exception. */
module Wrappers {

  datatype Option<+T> = None | Some(value: T)
}
