/**
 * Optional values and results with an error payload, shared by every module
 * that models an operation which can fail (a C++ exception, a Python raise,
 * an empty std::optional).
 */
module Wrappers {

  datatype Option<+T> = None | Some(value: T)
  {
    function GetOr(default: T): (r: T)
      ensures Some? ==> r == value
      ensures None? ==> r == default
    {
      match this
      case Some(v) => v
      case None => default
    }
  }

  datatype Result<+T, +E> = Success(value: T) | Failure(error: E)
  {
    predicate IsFailure()
    {
      Failure?
    }

    function PropagateFailure<U>(): Result<U, E>
      requires Failure?
    {
      Failure(error)
    }

    function Extract(): T
      requires Success?
    {
      value
    }

    function ToOption(): (r: Option<T>)
      ensures r.Some? <==> Success?
      ensures Success? ==> r.value == value
    {
      match this
      case Success(v) => Some(v)
      case Failure(_) => None
    }
  }

  /** Check k fails with e and every check before it succeeds. */
  predicate FailsFirstAt<E(==)>(checks: seq<Result<(), E>>, k: int, e: E)
  {
    0 <= k < |checks| && checks[k] == Failure(e) && forall j :: 0 <= j < k ==> checks[j].Success?
  }

  /** The first failure of a run of checks made in order, or success when none fails. */
  function FirstFailure<E(==)>(checks: seq<Result<(), E>>): (r: Result<(), E>)
    ensures r.Success? <==> forall k :: 0 <= k < |checks| ==> checks[k].Success?
    ensures r.Failure? ==> exists k :: FailsFirstAt(checks, k, r.error)
  {
    if |checks| == 0 then Success(())
    else if checks[0].Failure? then
      assert FailsFirstAt(checks, 0, checks[0].error);
      Failure(checks[0].error)
    else
      var r := FirstFailure(checks[1..]);
      if r.Success? then r
      else
        var k :| FailsFirstAt(checks[1..], k, r.error);
        assert checks[k + 1] == Failure(r.error);
        assert forall j :: 0 <= j < k + 1 ==> checks[j].Success? by {
          forall j | 0 <= j < k + 1 ensures checks[j].Success? {
            if j > 0 { assert checks[j] == checks[1..][j - 1]; }
          }
        }
        assert FailsFirstAt(checks, k + 1, r.error);
        r
  }
}
