/**
 An answer that may be absent: what a lookup in one of the server's maps gives back
 when the key might not be there.
 */
module Wrappers {

  datatype Option<+T> = None | Some(value: T)
}
