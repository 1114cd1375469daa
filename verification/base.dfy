/** Failure-aware result types and a sequence helper shared by every module of the model. */
module Base {

  /** An optional value; `None` stands for Python's `None`. */
  datatype Option<+T> = None | Some(value: T)

  /** The outcome of an operation that may raise: `Failure` carries the kind of exception. */
  datatype Result<+T, +E> = Success(value: T) | Failure(error: E)

  /** `n` copies of `x`: what `np.empty(n)` followed by `fill(x)` (or `np.zeros(n)`) gives. */
  function Fill<V>(n: nat, x: V): (r: seq<V>)
    ensures |r| == n && forall k | 0 <= k < n :: r[k] == x
  {
    seq(n, _ => x)
  }
}
