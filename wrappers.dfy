/** Optional values: `None` stands for the `null` that the service returns
    when it has no user to hand back. */
module Wrappers {
  datatype Option<T> = None | Some(value: T)
}
