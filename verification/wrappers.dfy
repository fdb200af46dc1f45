/** Optional values, standing for JavaScript's `undefined`/`null` where the
    server tests a value for presence. */
module Wrappers {

  datatype Option<+T> = None | Some(value: T)
}
