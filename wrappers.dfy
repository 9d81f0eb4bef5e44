/** The optional value used for the cache's free-slab cursor. */
module Wrappers {

  /** `None` stands for null. */
  datatype Option<+T> = None | Some(value: T)
}
