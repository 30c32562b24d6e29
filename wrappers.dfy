/** A JavaScript value that may be `null` or `undefined`. Both are `None`:
    the code under model only ever tests such values with `!= null`. */
module Wrappers {

  datatype Option<+T> = None | Some(value: T)
}
