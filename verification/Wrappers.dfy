/** What the modules of several components use: an optional value, and the elements of a sequence. */
module Wrappers {
  datatype Option<+T> = None | Some(value: T)

  ghost function Elems<T>(s: seq<T>): set<T> {
    set o | o in s
  }
}
