/** Optional values: the model of the components' `undefined`/`null` results. */
module Wrappers {

  datatype Option<+T> = None | Some(value: T)
}
