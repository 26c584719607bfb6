/** Optional values, used both for queries that can fail (a system call that
    returns -1) and for "free was called with this address, or not at all". */
module Wrappers {

  datatype Option<+T> = None | Some(value: T)
}
