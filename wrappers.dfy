/** Optional values, used wherever the driver tests a pointer for NULL. */
module Wrappers {
  datatype Option<+T> = None | Some(value: T)

  /** Sequence concatenation is associative. */
  lemma AppendAssoc<T>(a: seq<T>, b: seq<T>, c: seq<T>)
    ensures a + b + c == a + (b + c)
  {
  }
}
