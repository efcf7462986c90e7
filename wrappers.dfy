/** Python's `None`-or-value results (`dict.get(key, None)`). */
module Wrappers {

  datatype Option<+T> = None | Some(value: T)
}
