/** The optional-value datatype and a sequence fact shared by the other modules. */
module Wrappers {
  datatype Option<+T> = None | Some(value: T)

  /** Appending one element and then a tail regroups freely. */
  lemma AppendAssoc<T>(done: seq<T>, x: T, tail: seq<T>)
    ensures done + ([x] + tail) == (done + [x]) + tail
  {
  }
}
