/** The optional result of the value-returning retrieval operations: the
    source returns an empty `std::shared_ptr` for "nothing available". */
module Wrappers {

  datatype Option<+T> = None | Some(value: T)

}
