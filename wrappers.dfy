/** Option and Result, the failure-carrying values the rest of the model returns
    where the application returns nil or an object with validation errors, and
    the one lookup every `find_by` on a single integer column performs. */
module Wrappers {

  datatype Option<+T> = None | Some(value: T)

  datatype Result<+R, +E> = Success(value: R) | Failure(error: E)

  /** The first row whose key column equals `k`, or None when no row has it. */
  function First<T>(rows: seq<T>, key: T -> int, k: int): (r: Option<T>)
    ensures r.Some? ==> r.value in rows && key(r.value) == k
    ensures r.None? <==> forall x :: x in rows ==> key(x) != k
  {
    if rows == [] then None
    else if key(rows[0]) == k then Some(rows[0])
    else First(rows[1..], key, k)
  }
}
