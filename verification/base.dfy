/** Small shared definitions: an optional value and distinctness of a sequence. */
module Base {

  /** Python's `None` or a present value. */
  datatype Option<+T> = None | Some(value: T)

  /** No element occurs twice. */
  ghost predicate Distinct<T>(l: seq<T>)
  {
    forall a, b | 0 <= a < b < |l| :: l[a] != l[b]
  }
}
