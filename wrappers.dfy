/** The optional value used for absent files, unread lines and failed parses. */
module Wrappers {
  datatype Option<+T> = None | Some(value: T)
}
