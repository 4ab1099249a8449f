/** Option and Result, the two failure-carrying datatypes the model uses for Python's
    `None` returns and raised exceptions, and Python's list indexing and `list.index`. */
module Wrappers {

  datatype Option<+T> = None | Some(value: T)

  datatype Result<+R, +E> = Success(value: R) | Failure(error: E)

  /** `xs[i]` does not raise in Python: negative indices count from the end. */
  predicate InRange(i: int, n: int) {
    -n <= i < n
  }

  /** The position `xs[i]` reads in a list of length `n`. */
  function Slot(i: int, n: int): (k: nat)
    requires InRange(i, n)
    ensures k < n
    ensures 0 <= i ==> k == i
    ensures i < 0 ==> k == n + i
  {
    if i < 0 then n + i else i
  }

  /** The position of the first `x` in `xs`, as `list.index` and `list.remove` look for it. */
  function IndexOf<T(==)>(xs: seq<T>, x: T): (r: Option<nat>)
    ensures r.None? <==> x !in xs
    ensures r.Some? ==> r.value < |xs| && xs[r.value] == x && x !in xs[..r.value]
  {
    if xs == [] then None
    else if xs[0] == x then Some(0)
    else match IndexOf(xs[1..], x)
      case None => None
      case Some(k) =>
        assert xs[..k + 1] == [xs[0]] + xs[1..][..k];
        Some(k + 1)
  }
}
