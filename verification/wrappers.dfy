/** Failure-compatible result type and the faults of the result pipeline. */
module Wrappers {

  datatype Option<+T> = None | Some(value: T)

  /** Either a value or the fault that stopped the computation; usable with `:-`. */
  datatype Result<+R, +E> = Success(value: R) | Failure(error: E) {

    predicate IsFailure() {
      Failure?
    }

    function PropagateFailure<U>(): Result<U, E>
      requires Failure?
    {
      Failure(error)
    }

    function Extract(): R
      requires Success?
    {
      value
    }
  }

  /** The steps of a loop that stops at the first failure: the values of all
      of them when none fails, else the failure of the first one that does. */
  function Collect<T, E>(rs: seq<Result<T, E>>): (r: Result<seq<T>, E>)
    ensures r.Success? <==> forall k :: 0 <= k < |rs| ==> rs[k].Success?
    ensures r.Success? ==> |r.value| == |rs|
    ensures r.Success? ==> forall k :: 0 <= k < |rs| ==> rs[k] == Success(r.value[k])
    ensures r.Failure? ==>
              exists k :: 0 <= k < |rs| && rs[k] == Failure(r.error) &&
                forall j :: 0 <= j < k ==> rs[j].Success?
  {
    if |rs| == 0 then Success([])
    else if rs[0].Failure? then Failure(rs[0].error)
    else
      var rest := Collect(rs[1..]);
      if rest.Failure? then
        FirstFailureShift(rs, rest.error);
        Failure(rest.error)
      else
        var vs := [rs[0].value] + rest.value;
        assert forall k :: 1 <= k < |rs| ==> rs[k] == rs[1..][k - 1] && vs[k] == rest.value[k - 1];
        Success(vs)
  }

  /** A first failure of the tail is the first failure of the whole list
      when the head succeeds. */
  lemma FirstFailureShift<T, E>(rs: seq<Result<T, E>>, err: E)
    requires |rs| > 0 && rs[0].Success?
    requires exists k :: 0 <= k < |rs| - 1 && rs[1..][k] == Failure(err) &&
               forall j :: 0 <= j < k ==> rs[1..][j].Success?
    ensures exists k :: 0 <= k < |rs| && rs[k] == Failure(err) &&
              forall j :: 0 <= j < k ==> rs[j].Success?
  {
    var k :| 0 <= k < |rs| - 1 && rs[1..][k] == Failure(err) &&
             forall j :: 0 <= j < k ==> rs[1..][j].Success?;
    assert rs[k + 1] == rs[1..][k];
    forall j | 0 <= j < k + 1
      ensures rs[j].Success?
    {
      if j > 0 {
        assert rs[j] == rs[1..][j - 1];
      }
    }
  }

  /** Why processing stopped. `RequestFailed`, `MissingTable`,
      `ColumnCountMismatch` and `MissingDateTrack` are exceptions the scraper
      does not catch: each ends the whole run. `UnsupportedShape` marks the
      tables outside the model, which pandas accepts: short rows next to a
      row of full width (padded with NaN) and repeated header names. The
      model stops there too. */
  datatype Fault =
    | RequestFailed            // the HTTP request raised (network error, timeout)
    | MissingTable             // the race block has no <table> element
    | ColumnCountMismatch      // pandas' ValueError: the widest data row is not as wide as the header
    | UnsupportedShape         // NaN padding or repeated header names (outside the model)
    | MissingDateTrack(found: nat)  // fewer than two date-track spans
}
