/** Optional values: the model's reading of a JSON field or a query result that may be absent. */
module Wrappers {

  datatype Option<+T> = None | Some(value: T)
}
