/**
  Failure-compatible wrappers used by every stage of the pipeline.
  A Python exception that aborts a pass is modelled as an `Err` value;
  `:-` propagates it the way an uncaught exception unwinds `main`.
 */
module Results {

  /** An optional value, used for lookups that may find nothing. */
  datatype Option<+T> = None | Some(value: T)

  /** Either the value a pass computes or the error that aborts it. */
  datatype Result<+T, +E> = Ok(value: T) | Err(error: E) {

    predicate IsFailure() {
      Err?
    }

    function PropagateFailure<U>(): Result<U, E>
      requires Err?
    {
      Err(error)
    }

    function Extract(): T
      requires Ok?
    {
      value
    }
  }

  /** `f` applied to every item in order, or the error of the first item it
      fails on: a loop over the items that stops at the first exception. */
  function MapAll<A, T, E>(xs: seq<A>, f: A -> Result<T, E>): (r: Result<seq<T>, E>)
    ensures r.Ok? <==> forall k :: 0 <= k < |xs| ==> f(xs[k]).Ok?
    ensures r.Ok? ==> |r.value| == |xs| && forall k :: 0 <= k < |xs| ==> f(xs[k]) == Ok(r.value[k])
    ensures r.Err? ==>
              exists k :: 0 <= k < |xs| && f(xs[k]) == Err(r.error) && forall j :: 0 <= j < k ==> f(xs[j]).Ok?
    decreases |xs|
  {
    if |xs| == 0 then Ok([])
    else
      var v :- f(xs[0]);
      var rest :- MapAll(xs[1..], f);
      assert forall k :: 1 <= k < |xs| ==> xs[k] == xs[1..][k - 1];
      Ok([v] + rest)
  }
}
