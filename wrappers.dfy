/** Option and Result datatypes, and the stop-at-first-failure loop, shared by the other modules. */
module Wrappers {

  /** A value that may be absent (Python's None). */
  datatype Option<+T> = None | Some(value: T)

  /** The outcome of an operation that either returns a value or raises. */
  datatype Result<+R, +E> = Success(value: R) | Failure(error: E)

  /**
   * A Python `for` loop that applies f to each element in order and stops
   * at the first element for which f raises.
   */
  function MapUntilFailure<A, B, E>(f: A -> Result<B, E>, xs: seq<A>): (r: Result<seq<B>, E>)
    ensures r.Success? ==> |r.value| == |xs|
    decreases |xs|
  {
    if xs == [] then Success([])
    else
      match MapUntilFailure(f, xs[..|xs| - 1])
      case Failure(e) => Failure(e)
      case Success(done) =>
        match f(xs[|xs| - 1])
        case Failure(e) => Failure(e)
        case Success(y) => Success(done + [y])
  }

  /**
   * The loop succeeds exactly when f succeeds on every element, and then
   * returns f's results in order; otherwise it fails with the error of the
   * first element on which f fails.
   */
  lemma {:induction false} MapUntilFailurePointwise<A, B, E>(f: A -> Result<B, E>, xs: seq<A>)
    ensures MapUntilFailure(f, xs).Success? <==> forall j :: 0 <= j < |xs| ==> f(xs[j]).Success?
    ensures MapUntilFailure(f, xs).Success? ==>
      && |MapUntilFailure(f, xs).value| == |xs|
      && forall j :: 0 <= j < |xs| ==> MapUntilFailure(f, xs).value[j] == f(xs[j]).value
    ensures MapUntilFailure(f, xs).Failure? ==>
      exists j :: 0 <= j < |xs| && f(xs[j]).Failure?
        && MapUntilFailure(f, xs).error == f(xs[j]).error
        && forall k :: 0 <= k < j ==> f(xs[k]).Success?
    decreases |xs|
  {
    if xs != [] {
      var n := |xs| - 1;
      var front := xs[..n];
      MapUntilFailurePointwise(f, front);
      assert forall j :: 0 <= j < n ==> front[j] == xs[j];
      match MapUntilFailure(f, front)
      case Failure(e) =>
        var j :| 0 <= j < n && f(front[j]).Failure? && e == f(front[j]).error
          && forall k :: 0 <= k < j ==> f(front[k]).Success?;
        assert f(xs[j]).Failure?;
      case Success(done) =>
    }
  }

  /** One more loop iteration: the loop over xs + [x] continues the loop over xs. */
  lemma MapUntilFailureStep<A, B, E>(f: A -> Result<B, E>, xs: seq<A>, i: nat)
    requires i < |xs|
    requires MapUntilFailure(f, xs[..i]).Success?
    ensures MapUntilFailure(f, xs[..i + 1]) ==
      match f(xs[i])
      case Failure(e) => Failure(e)
      case Success(y) => Success(MapUntilFailure(f, xs[..i]).value + [y])
  {
    assert xs[..i + 1][..i] == xs[..i];
  }

  /** Once the loop over a prefix fails, the whole loop fails with that error. */
  lemma {:induction false} MapUntilFailurePrefix<A, B, E>(f: A -> Result<B, E>, xs: seq<A>, k: nat)
    requires k <= |xs|
    requires MapUntilFailure(f, xs[..k]).Failure?
    ensures MapUntilFailure(f, xs) == MapUntilFailure(f, xs[..k])
    decreases |xs|
  {
    if k < |xs| {
      var front := xs[..|xs| - 1];
      assert front[..k] == xs[..k];
      MapUntilFailurePrefix(f, front, k);
    } else {
      assert xs[..k] == xs;
    }
  }
}
