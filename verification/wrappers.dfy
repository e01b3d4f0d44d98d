/** Optional values. A pool slot holds `Some(resource)` or `None` when a
    borrower handed back nil (the Go `*T` pointer being nil). */
module Wrappers {

  datatype Option<+T> = None | Some(value: T)
}
