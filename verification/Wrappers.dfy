/** What is used throughout: a value that may be missing, a value or an error, and the
    order within a list. */
module Wrappers {
  datatype Option<+T> = None | Some(value: T)

  datatype Result<+T, +E> = Ok(value: T) | Err(error: E)

  /** The one stands somewhere before the other. */
  ghost predicate InOrder<T>(xs: seq<T>, first: T, second: T) {
    exists m, n :: 0 <= m < n < |xs| && xs[m] == first && xs[n] == second
  }

  lemma StaysInOrder<T>(xs: seq<T>, more: seq<T>, first: T, second: T)
    ensures InOrder(xs, first, second) ==> InOrder(xs + more, first, second)
  {
    if InOrder(xs, first, second) {
      var m, n :| 0 <= m < n < |xs| && xs[m] == first && xs[n] == second;
      assert (xs + more)[m] == first && (xs + more)[n] == second;
    }
  }

  lemma AppendedInOrder<T>(xs: seq<T>, more: seq<T>, first: T)
    requires first in xs && more != []
    ensures InOrder(xs + more, first, more[0])
  {
    var m :| 0 <= m < |xs| && xs[m] == first;
    assert (xs + more)[m] == first && (xs + more)[|xs|] == more[0];
  }
}
