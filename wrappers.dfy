/** Failure-carrying values: an absent regular-expression match is `None`, a raised
    exception is an `Err` holding what was raised. */
module Wrappers {

  datatype Option<+T> = None | Some(value: T)

  datatype Result<+T, +E> = Ok(value: T) | Err(error: E)

  /** Runs a sequence of steps that may each raise, stopping at the first that does:
      all the values in order, or the position and error of the first failure. */
  function Collect<T, E>(outcomes: seq<Result<T, E>>): (r: Result<seq<T>, (nat, E)>)
    ensures r.Ok? ==> |r.value| == |outcomes|
    ensures r.Ok? ==> forall k :: 0 <= k < |outcomes| ==> outcomes[k] == Ok(r.value[k])
    ensures r.Err? ==> r.error.0 < |outcomes| && outcomes[r.error.0] == Err(r.error.1)
    ensures r.Err? ==> forall k :: 0 <= k < r.error.0 ==> outcomes[k].Ok?
  {
    if outcomes == [] then Ok([])
    else
      var last: nat := |outcomes| - 1;
      match Collect(outcomes[..last])
      case Err(e) => Err(e)
      case Ok(vs) =>
        match outcomes[last]
        case Err(e) => Err((last, e))
        case Ok(v) => Ok(vs + [v])
  }

  /** One more step that succeeds extends the collected values. */
  lemma {:induction false} CollectStep<T, E>(outcomes: seq<Result<T, E>>, k: nat, vs: seq<T>, v: T)
    requires k < |outcomes|
    requires Collect(outcomes[..k]) == Ok(vs) && outcomes[k] == Ok(v)
    ensures Collect(outcomes[..k + 1]) == Ok(vs + [v])
  {
    assert outcomes[..k + 1][..k] == outcomes[..k];
  }

  /** A step that fails after `k` good ones decides the outcome of the whole run. */
  lemma {:induction false} CollectFirstError<T, E>(outcomes: seq<Result<T, E>>, k: nat, vs: seq<T>, e: E)
    requires k < |outcomes|
    requires Collect(outcomes[..k]) == Ok(vs) && outcomes[k] == Err(e)
    ensures Collect(outcomes) == Err((k, e))
  {
    var last := |outcomes| - 1;
    if k < last {
      assert outcomes[..last][..k] == outcomes[..k];
      CollectFirstError(outcomes[..last], k, vs, e);
    } else {
      assert outcomes[..last] == outcomes[..k];
    }
  }

  /** One more step after `k` good ones: a good step extends the values, and a failing
      one decides the outcome of the whole run. */
  lemma CollectNext<T, E>(outcomes: seq<Result<T, E>>, k: nat, vs: seq<T>, r: Result<T, E>)
    requires k < |outcomes| && Collect(outcomes[..k]) == Ok(vs) && outcomes[k] == r
    ensures r.Ok? ==> Collect(outcomes[..k + 1]) == Ok(vs + [r.value])
    ensures r.Err? ==> Collect(outcomes) == Err((k, r.error))
  {
    if r.Ok? {
      CollectStep(outcomes, k, vs, r.value);
    } else {
      CollectFirstError(outcomes, k, vs, r.error);
    }
  }

  /** When every step succeeds, the run yields all the values. */
  lemma {:induction false} CollectAllOk<T, E>(outcomes: seq<Result<T, E>>, vs: seq<T>)
    requires |vs| == |outcomes|
    requires forall k :: 0 <= k < |outcomes| ==> outcomes[k] == Ok(vs[k])
    ensures Collect(outcomes) == Ok(vs)
  {
    if outcomes != [] {
      var last := |outcomes| - 1;
      CollectAllOk(outcomes[..last], vs[..last]);
      assert vs[..last] + [vs[last]] == vs;
    }
  }

  /** The first error, wherever it is, decides the result. */
  lemma CollectErrAt<T, E>(outcomes: seq<Result<T, E>>, j: nat)
    requires j < |outcomes| && outcomes[j].Err?
    requires forall k :: 0 <= k < j ==> outcomes[k].Ok?
    ensures Collect(outcomes) == Err((j, outcomes[j].error))
  {
  }
}
