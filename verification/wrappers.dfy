/** What several modules share. */
module Wrappers {

  datatype Option<+T> = None | Some(value: T)

  predicate Distinct(c: seq<nat>) {
    forall i, j | 0 <= i < j < |c| :: c[i] != c[j]
  }
}
