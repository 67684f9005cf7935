/** The present/absent wrapper the Math helpers return instead of throwing. */
module Wrappers {

  datatype Option<+T> = None | Some(value: T)
}
