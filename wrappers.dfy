/** Optional values: a slot that may be empty, a field JavaScript may leave undefined,
    a chess move the engine may refuse. */
module Wrappers {

  datatype Option<+T> = None | Some(value: T)
}
