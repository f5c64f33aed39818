/** Optional values, for Python's `None`-or-value returns (`dict.get`, `dict.pop(k, None)`). */
module Wrappers {

  datatype Option<T> = None | Some(value: T)
}
