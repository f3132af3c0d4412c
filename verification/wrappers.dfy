/** Optional values: the engine's successor generator may answer "no successor". */
module Wrappers {

  datatype Option<+T> = None | Some(value: T)
}
