/** Option and Result, the failure-compatible wrappers used throughout the model.
    A Python exception raised by the converter becomes a Failure carrying an Error. */
module Wrappers {

  datatype Option<+T> = None | Some(value: T)

  datatype Result<+T, +E> = Success(value: T) | Failure(error: E) {

    predicate IsFailure() {
      Failure?
    }

    function PropagateFailure<U>(): Result<U, E>
      requires Failure?
    {
      Failure(error)
    }

    function Extract(): T
      requires Success?
    {
      value
    }
  }

  /** `p` put in front of a successful list; a failure passes through. */
  function PrependTo<T, E>(p: seq<T>, r: Result<seq<T>, E>): Result<seq<T>, E> {
    match r
    case Success(v) => Success(p + v)
    case Failure(e) => Failure(e)
  }

  lemma PrependToNothing<T, E>(r: Result<seq<T>, E>)
    ensures PrependTo([], r) == r
  {
    match r
    case Success(v) => assert [] + v == v;
    case Failure(_) =>
  }

  /** Prefixes put in front one after the other add up. */
  lemma PrependToTwice<T, E>(p: seq<T>, q: seq<T>, r: Result<seq<T>, E>)
    ensures PrependTo(p, PrependTo(q, r)) == PrependTo(p + q, r)
  {
    match r
    case Success(v) => assert p + (q + v) == (p + q) + v;
    case Failure(_) =>
  }
}
