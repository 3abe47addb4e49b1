/** Optional values, used where the page's markup or a constructor may
    leave something absent. */
module Wrappers {

  datatype Option<+T> = None | Some(value: T)
}
