/** A value that may be absent: an error return, a null pointer, a search that found nothing. */
module Wrappers {
  datatype Option<T> = None | Some(value: T)
}
